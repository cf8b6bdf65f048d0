/** apps/server/src/runtime-resource-registry.ts: stopping every resource once, in order. */
module ShutdownRegistry {
  import opened Wrappers
  import opened Sequences

  datatype Phase = Cancel | Drain | Stop | Close

  const PHASES: seq<Phase> := [Cancel, Drain, Stop, Close]

  /** How a `stop` ends: its promise is fulfilled, rejected, or it throws before returning one. */
  datatype Ending = Fulfils | Rejects | Throws

  datatype Resource = Resource(name: string, phase: Phase, ending: Ending)

  // ---------------------------------------------------------------------------- the order of stops

  function InPhase(resources: seq<Resource>, phase: Phase): seq<Resource> {
    if resources == [] then []
    else (if resources[0].phase == phase then [resources[0]] else []) + InPhase(resources[1..], phase)
  }

  /** Phase by phase; within a phase, the last registered first. */
  function Order(resources: seq<Resource>, phases: seq<Phase>): seq<Resource> {
    if phases == [] then [] else Reversed(InPhase(resources, phases[0])) + Order(resources, phases[1..])
  }

  function StopOrder(resources: seq<Resource>): seq<Resource> {
    Order(resources, PHASES)
  }

  function Rank(phase: Phase): nat {
    match phase case Cancel => 0 case Drain => 1 case Stop => 2 case Close => 3
  }

  ghost predicate NamesDistinct(resources: seq<Resource>) {
    forall i, j :: 0 <= i < j < |resources| ==> resources[i].name != resources[j].name
  }

  /** `a` was registered before `b`. */
  ghost predicate Earlier(resources: seq<Resource>, a: Resource, b: Resource) {
    exists i, j :: 0 <= i < j < |resources| && resources[i] == a && resources[j] == b
  }

  ghost predicate StopsFirst(resources: seq<Resource>, a: Resource, b: Resource) {
    Rank(a.phase) < Rank(b.phase) || (a.phase == b.phase && Earlier(resources, b, a))
  }

  lemma {:induction false} InPhaseMembers(resources: seq<Resource>, phase: Phase)
    ensures forall r :: r in InPhase(resources, phase) <==> r in resources && r.phase == phase
  {
    if resources != [] {
      InPhaseMembers(resources[1..], phase);
      assert resources == [resources[0]] + resources[1..];
    }
  }

  lemma EarlierInTail(resources: seq<Resource>, a: Resource, b: Resource)
    requires resources != [] && Earlier(resources[1..], a, b)
    ensures Earlier(resources, a, b)
  {
    var i, j :| 0 <= i < j < |resources[1..]| && resources[1..][i] == a && resources[1..][j] == b;
    assert resources[i + 1] == a && resources[j + 1] == b;
  }

  lemma EarlierThanTail(resources: seq<Resource>, b: Resource)
    requires resources != [] && b in resources[1..]
    ensures Earlier(resources, resources[0], b)
  {
    var j :| 0 <= j < |resources[1..]| && resources[1..][j] == b;
    assert resources[j + 1] == b;
  }

  /** Within a phase the stops come in reverse order of registration. */
  lemma {:induction false} PhaseIsReversed(resources: seq<Resource>, phase: Phase)
    ensures var part := Reversed(InPhase(resources, phase));
            && (forall r :: r in part <==> r in resources && r.phase == phase)
            && (forall i, j :: 0 <= i < j < |part| ==> Earlier(resources, part[j], part[i]))
  {
    if resources != [] {
      PhaseIsReversed(resources[1..], phase);
      var rest := Reversed(InPhase(resources[1..], phase));
      var part := Reversed(InPhase(resources, phase));
      assert resources == [resources[0]] + resources[1..];
      if resources[0].phase == phase {
        assert InPhase(resources, phase)[1..] == InPhase(resources[1..], phase);
        assert part == rest + [resources[0]];
      } else {
        assert InPhase(resources, phase) == InPhase(resources[1..], phase);
      }
      forall i, j | 0 <= i < j < |part| ensures Earlier(resources, part[j], part[i]) {
        if j < |rest| {
          EarlierInTail(resources, part[j], part[i]);
        } else {
          assert rest[i] in rest;
          EarlierThanTail(resources, part[i]);
        }
      }
    }
  }

  predicate Ascending(phases: seq<Phase>) {
    forall i, j :: 0 <= i < j < |phases| ==> Rank(phases[i]) < Rank(phases[j])
  }

  ghost predicate InStopOrder(resources: seq<Resource>, order: seq<Resource>) {
    forall i, j :: 0 <= i < j < |order| ==> StopsFirst(resources, order[i], order[j])
  }

  lemma {:induction false} OrderMembers(resources: seq<Resource>, phases: seq<Phase>)
    ensures forall r :: r in Order(resources, phases) <==> r in resources && r.phase in phases
  {
    if phases != [] {
      PhaseIsReversed(resources, phases[0]);
      OrderMembers(resources, phases[1..]);
      assert phases == [phases[0]] + phases[1..];
    }
  }

  lemma OneAfterTheOther(resources: seq<Resource>, part: seq<Resource>, rest: seq<Resource>)
    requires InStopOrder(resources, part) && InStopOrder(resources, rest)
    requires forall a, b :: a in part && b in rest ==> StopsFirst(resources, a, b)
    ensures InStopOrder(resources, part + rest)
  {
    var order := part + rest;
    forall i, j | 0 <= i < j < |order| ensures StopsFirst(resources, order[i], order[j]) {
      if j < |part| {
        assert StopsFirst(resources, part[i], part[j]);
      } else if i < |part| {
        assert part[i] in part && rest[j - |part|] in rest;
      } else {
        assert StopsFirst(resources, rest[i - |part|], rest[j - |part|]);
      }
    }
  }

  lemma {:induction false} OrderIs(resources: seq<Resource>, phases: seq<Phase>)
    requires Ascending(phases)
    ensures InStopOrder(resources, Order(resources, phases))
  {
    if phases != [] {
      var part, rest := Reversed(InPhase(resources, phases[0])), Order(resources, phases[1..]);
      PhaseIsReversed(resources, phases[0]);
      assert InStopOrder(resources, part) by {
        forall i, j | 0 <= i < j < |part| ensures StopsFirst(resources, part[i], part[j]) {
          assert part[i] in part && part[j] in part;
        }
      }
      OrderIs(resources, phases[1..]);
      OrderMembers(resources, phases[1..]);
      forall a, b | a in part && b in rest ensures StopsFirst(resources, a, b) {
        var k :| 0 <= k < |phases[1..]| && phases[1..][k] == b.phase;
        assert phases[k + 1] == b.phase;
      }
      OneAfterTheOther(resources, part, rest);
    }
  }

  lemma NotEarlierThanItself(resources: seq<Resource>, r: Resource)
    requires NamesDistinct(resources)
    ensures !Earlier(resources, r, r)
  {
  }

  /** Every registered resource once: by phase, and the other way round from registration within one. */
  lemma StopOrderIs(resources: seq<Resource>)
    requires NamesDistinct(resources)
    ensures var order := StopOrder(resources);
            (forall r :: r in order <==> r in resources) && NamesDistinct(order) && InStopOrder(resources, order)
  {
    OrderIs(resources, PHASES);
    OrderMembers(resources, PHASES);
    var order := StopOrder(resources);
    forall r | r in resources ensures r in order {
      assert r.phase in PHASES by { assert PHASES[Rank(r.phase)] == r.phase; }
    }
    forall i, j | 0 <= i < j < |order| ensures order[i].name != order[j].name {
      NotEarlierThanItself(resources, order[i]);
      assert order[i] in order && order[j] in order;
      assert StopsFirst(resources, order[i], order[j]);
      assert order[i] != order[j];
      var a :| 0 <= a < |resources| && resources[a] == order[i];
      var b :| 0 <= b < |resources| && resources[b] == order[j];
      assert a != b;
    }
  }

  // -------------------------------------------------------------------------------- the registry

  datatype Refusal = Accepted | ShuttingDown | AlreadyRegistered

  function Names(resources: seq<Resource>): seq<string> {
    if resources == [] then [] else [resources[0].name] + Names(resources[1..])
  }

  function Failures(order: seq<Resource>): seq<string> {
    if order == [] then []
    else (if order[0].ending == Fulfils then [] else [order[0].name]) + Failures(order[1..])
  }

  ghost function RejectsAt(order: seq<Resource>): nat -> bool {
    (k: nat) => k < |order| && (order[k].ending == Rejects || order[k].ending == Throws)
  }

  ghost function NameAt(order: seq<Resource>): (nat, string) -> bool {
    (k: nat, name: string) => k < |order| && name == order[k].name
  }

  /** The names of the resources whose stop rejects or throws, in the order of the stops, and no others. */
  ghost predicate NamesFailures(order: seq<Resource>, failures: seq<string>) {
    Picks(|order|, RejectsAt(order), NameAt(order), failures)
  }

  lemma {:induction false} FirstFailures(order: seq<Resource>, n: nat)
    requires n <= |order|
    ensures Picks(n, RejectsAt(order), NameAt(order), Failures(order[..n]))
  {
    var keep, says := RejectsAt(order), NameAt(order);
    if n == 0 {
      PicksNothing(keep, says);
    } else {
      FirstFailures(order, n - 1);
      assert order[..n] == order[..n - 1] + [order[n - 1]];
      FailuresConcat(order[..n - 1], [order[n - 1]]);
      assert [order[n - 1]][1..] == [] && Failures([]) == [];
      if order[n - 1].ending == Fulfils {
        PicksSame(n - 1, keep, says, Failures(order[..n - 1]));
        assert Failures(order[..n - 1]) + [] == Failures(order[..n - 1]);
      } else {
        var failed := Failures(order[..n - 1]);
        PicksMore(n - 1, keep, says, failed, order[n - 1].name);
        assert Failures(order[..n]) == failed + [order[n - 1].name];
      }
    }
  }

  lemma FailuresAre(order: seq<Resource>)
    ensures NamesFailures(order, Failures(order))
  {
    FirstFailures(order, |order|);
    assert order[..|order|] == order;
  }

  /** The stops are called in that order, each once. */
  lemma {:induction false} NamesAre(order: seq<Resource>)
    ensures |Names(order)| == |order| && forall i :: 0 <= i < |order| ==> Names(order)[i] == order[i].name
  {
    if order != [] {
      NamesAre(order[1..]);
    }
  }

  class RuntimeResourceRegistry {
    var resources: seq<Resource>
    var shuttingDown: bool
    /** The settled promise: the names in the aggregate error. */
    var shutdownResult: Option<seq<string>>
    ghost var stopped: seq<string>

    ghost predicate Valid()
      reads this
    {
      && NamesDistinct(resources) && (shutdownResult.Some? <==> shuttingDown)
      && (!shuttingDown ==> stopped == [])
      && (shuttingDown ==>
            stopped == Names(StopOrder(resources)) && shutdownResult == Some(Failures(StopOrder(resources))))
    }

    constructor ()
      ensures Valid() && resources == [] && !shuttingDown
    {
      resources, shuttingDown, shutdownResult, stopped := [], false, None, [];
    }

    method Register(resource: Resource) returns (r: Refusal)
      requires Valid()
      modifies this
      ensures Valid() && stopped == old(stopped) && shuttingDown == old(shuttingDown)
          && shutdownResult == old(shutdownResult)
      ensures r == ShuttingDown <==> old(shuttingDown)
      ensures r == AlreadyRegistered <==>
                !old(shuttingDown)
                && exists i :: 0 <= i < |old(resources)| && old(resources)[i].name == resource.name
      ensures resources == if r == Accepted then old(resources) + [resource] else old(resources)
    {
      if shuttingDown {
        return ShuttingDown;
      }
      if exists i :: 0 <= i < |resources| && resources[i].name == resource.name {
        return AlreadyRegistered;
      }
      resources := resources + [resource];
      return Accepted;
    }

    /** `shutdown`, when nothing calls it again before it has a promise to hand out. */
    method Shutdown() returns (failures: seq<string>)
      requires Valid()
      modifies this
      ensures Valid() && shuttingDown && resources == old(resources) && shutdownResult == Some(failures)
      ensures failures == Failures(StopOrder(resources)) && NamesFailures(StopOrder(resources), failures)
      ensures stopped == Names(StopOrder(resources))
      ensures old(shuttingDown) ==> stopped == old(stopped) && shutdownResult == old(shutdownResult)
    {
      if shutdownResult.None? {
        shuttingDown := true;
        var failed := RunShutdown();
        shutdownResult := Some(failed);
      }
      failures := shutdownResult.value;
      FailuresAre(StopOrder(resources));
    }

    /** The inner loop of `runShutdown`, over the resources of one phase. */
    method StopEach(part: seq<Resource>) returns (failures: seq<string>)
      modifies this`stopped
      ensures stopped == old(stopped) + Names(part) && failures == Failures(part)
    {
      failures := [];
      ghost var before := stopped;
      assert part[..0] == [];
      for i := 0 to |part|
        invariant stopped == before + Names(part[..i]) && failures == Failures(part[..i])
      {
        assert part[..i + 1] == part[..i] + [part[i]];
        NamesConcat(part[..i], [part[i]]);
        FailuresConcat(part[..i], [part[i]]);
        stopped := stopped + [part[i].name];
        if part[i].ending != Fulfils {
          failures := failures + [part[i].name];
        }
      }
      assert part[..|part|] == part;
    }

    /** The outer loop of `runShutdown`. */
    method StopPhases(phases: seq<Phase>) returns (failures: seq<string>)
      requires stopped == []
      modifies this`stopped
      ensures stopped == Names(Order(resources, phases)) && failures == Failures(Order(resources, phases))
    {
      failures := [];
      ghost var done: seq<Resource> := [];
      assert phases[0..] == phases;
      for p := 0 to |phases|
        invariant stopped == Names(done) && failures == Failures(done)
        invariant done + Order(resources, phases[p..]) == Order(resources, phases)
      {
        var part := Reversed(InPhase(resources, phases[p]));
        assert phases[p..][1..] == phases[p + 1..];
        Regroup(done, part, Order(resources, phases[p + 1..]));
        NamesConcat(done, part);
        FailuresConcat(done, part);
        var failed := StopEach(part);
        failures, done := failures + failed, done + part;
      }
      assert done + [] == done;
    }

    /** `runShutdown` */
    method RunShutdown() returns (failures: seq<string>)
      requires stopped == []
      modifies this`stopped
      ensures stopped == Names(StopOrder(resources)) && failures == Failures(StopOrder(resources))
    {
      failures := StopPhases(PHASES);
    }
  }

  lemma {:induction false} NamesConcat(a: seq<Resource>, b: seq<Resource>)
    ensures Names(a + b) == Names(a) + Names(b)
  {
    if a == [] {
      assert a + b == b;
    } else {
      assert (a + b)[1..] == a[1..] + b;
      NamesConcat(a[1..], b);
      Regroup([a[0].name], Names(a[1..]), Names(b));
    }
  }

  lemma {:induction false} FailuresConcat(a: seq<Resource>, b: seq<Resource>)
    ensures Failures(a + b) == Failures(a) + Failures(b)
  {
    if a == [] {
      assert a + b == b;
    } else {
      assert (a + b)[1..] == a[1..] + b;
      FailuresConcat(a[1..], b);
    }
  }
}
