/** apps/server/src/runtime-resource-registry.ts:35-42: `shutdown` called again while it is still running. */
module ShutdownReentry {
  import opened ShutdownRegistry

  /** `shutdownPromise` is assigned only when `runShutdown` has come to its first `await`. Until then an
      abort listener, or a `stop`, that calls `shutdown` starts another run. Each of them does so at most
      once here; a run that has come to its `await` waits with what it has left to stop. */
  datatype World = World(promise: bool, listener: bool, eager: set<string>, called: seq<string>,
    waiting: seq<seq<Resource>>, runs: nat)

  function Left(w: World): nat {
    |w.eager| + if w.listener then 1 else 0
  }

  function Shutdown(w: World, order: seq<Resource>): (r: World)
    ensures Left(r) <= Left(w) && if w.promise then r.runs == w.runs else r.runs > w.runs
    decreases Left(w), 3, 0
  {
    if w.promise then w
    else
      var signalled := Signal(w, order);
      RunNow(signalled.(runs := signalled.runs + 1), order, order).(promise := true)
  }

  /** The abort signal goes out to its listener. */
  function Signal(w: World, order: seq<Resource>): (r: World)
    ensures Left(r) <= Left(w) && r.runs >= w.runs
    decreases Left(w), 2, 0
  {
    if w.listener then Shutdown(w.(listener := false), order) else w
  }

  /** A run up to its first `await`: a `stop` that throws does not get there. */
  function RunNow(w: World, order: seq<Resource>, rest: seq<Resource>): (r: World)
    ensures Left(r) <= Left(w) && r.runs >= w.runs
    decreases Left(w), 1, |rest|
  {
    if rest == [] then w
    else
      var after := CallStop(w, order, rest[0]);
      if rest[0].ending == Throws then RunNow(after, order, rest[1..])
        else after.(waiting := after.waiting + [rest[1..]])
  }

  function CallStop(w: World, order: seq<Resource>, r: Resource): (s: World)
    ensures Left(s) <= Left(w) && s.runs >= w.runs
    decreases Left(w), 0, 0
  {
    var noted := w.(called := w.called + [r.name]);
    if r.name in w.eager then
      assert |w.eager - {r.name}| < |w.eager|;
      Shutdown(noted.(eager := w.eager - {r.name}), order)
    else noted
  }

  // ------------------------------------------------------------------------- counting the stops

  function StillToCall(waiting: seq<seq<Resource>>, x: string): nat {
    if waiting == [] then 0 else StillToCall(waiting[..|waiting| - 1], x) + Count(Names(waiting[|waiting| - 1]), x)
  }

  function Count(names: seq<string>, x: string): nat {
    if names == [] then 0 else (if names[0] == x then 1 else 0) + Count(names[1..], x)
  }

  /** How often the stop of `x` is called once every waiting run has gone on to its end. */
  function Calls(w: World, x: string): nat {
    Count(w.called, x) + StillToCall(w.waiting, x)
  }

  lemma {:induction false} CountConcat(a: seq<string>, b: seq<string>, x: string)
    ensures Count(a + b, x) == Count(a, x) + Count(b, x)
  {
    if a == [] {
      assert a + b == b;
    } else {
      assert (a + b)[1..] == a[1..] + b;
      CountConcat(a[1..], b, x);
    }
  }

  lemma CallNoted(called: seq<string>, name: string, x: string)
    ensures Count(called + [name], x) == Count(called, x) + if name == x then 1 else 0
  {
    CountConcat(called, [name], x);
    assert [name][1..] == [];
  }

  lemma WaitNoted(waiting: seq<seq<Resource>>, rest: seq<Resource>, x: string)
    ensures StillToCall(waiting + [rest], x) == StillToCall(waiting, x) + Count(Names(rest), x)
  {
    assert (waiting + [rest])[..|waiting|] == waiting;
  }

  lemma {:induction false} ShutdownCalls(w: World, order: seq<Resource>, x: string)
    requires Count(Names(order), x) == 1
    ensures Calls(Shutdown(w, order), x) == Calls(w, x) + (Shutdown(w, order).runs - w.runs)
    decreases Left(w), 3, 0
  {
    if !w.promise {
      if w.listener {
        ShutdownCalls(w.(listener := false), order, x);
      }
      var signalled := Signal(w, order);
      RunNowCalls(signalled.(runs := signalled.runs + 1), order, order, x);
    }
  }

  lemma {:induction false} RunNowCalls(w: World, order: seq<Resource>, rest: seq<Resource>, x: string)
    requires Count(Names(order), x) == 1
    ensures Calls(RunNow(w, order, rest), x)
        == Calls(w, x) + Count(Names(rest), x) + (RunNow(w, order, rest).runs - w.runs)
    decreases Left(w), 1, |rest|
  {
    if rest != [] {
      var after := CallStop(w, order, rest[0]);
      CallStopCalls(w, order, rest[0], x);
      assert Names(rest)[1..] == Names(rest[1..]) && Names(rest)[0] == rest[0].name;
      if rest[0].ending == Throws {
        RunNowCalls(after, order, rest[1..], x);
      } else {
        WaitNoted(after.waiting, rest[1..], x);
      }
    }
  }

  lemma {:induction false} CallStopCalls(w: World, order: seq<Resource>, r: Resource, x: string)
    requires Count(Names(order), x) == 1
    ensures Calls(CallStop(w, order, r), x)
        == Calls(w, x) + (if r.name == x then 1 else 0) + (CallStop(w, order, r).runs - w.runs)
    decreases Left(w), 0, 0
  {
    CallNoted(w.called, r.name, x);
    if r.name in w.eager {
      assert |w.eager - {r.name}| < |w.eager|;
      ShutdownCalls(w.(called := w.called + [r.name], eager := w.eager - {r.name}), order, x);
    }
  }

  // ---------------------------------------------------------------------------- exactly once

  /** The resources whose `stop` is called before the first `await`. */
  function Window(rest: seq<Resource>): seq<Resource> {
    if rest == [] then [] else [rest[0]] + if rest[0].ending == Throws then Window(rest[1..]) else []
  }

  /** Nothing calls `shutdown` again before it has a promise to hand out. */
  ghost predicate Undisturbed(w: World, order: seq<Resource>) {
    !w.listener && forall r :: r in Window(order) ==> r.name !in w.eager
  }

  lemma {:induction false} WindowRuns(w: World, order: seq<Resource>, rest: seq<Resource>)
    requires !w.promise
    ensures RunNow(w, order, rest).runs == w.runs <==> forall r :: r in Window(rest) ==> r.name !in w.eager
    decreases |rest|
  {
    if rest != [] {
      var after := CallStop(w, order, rest[0]);
      assert rest[0] in Window(rest);
      if rest[0].name in w.eager {
        assert |w.eager - {rest[0].name}| < |w.eager|;
        assert after.runs > w.runs;
      } else if rest[0].ending == Throws {
        WindowRuns(after, order, rest[1..]);
      }
    }
  }

  ghost predicate Fresh(w: World) {
    !w.promise && w.called == [] && w.waiting == [] && w.runs == 0
  }

  lemma {:induction false} CountOfDistinct(order: seq<Resource>, r: Resource)
    requires NamesDistinct(order) && r in order
    ensures Count(Names(order), r.name) == 1
  {
    if order[0] == r {
      NotLater(order[1..], r.name);
    } else {
      assert order == [order[0]] + order[1..];
      assert r in order[1..];
      CountOfDistinct(order[1..], r);
      var i :| 0 <= i < |order[1..]| && order[1..][i] == r;
      assert order[i + 1] == r;
    }
  }

  lemma {:induction false} NotLater(rest: seq<Resource>, x: string)
    requires forall i :: 0 <= i < |rest| ==> rest[i].name != x
    ensures Count(Names(rest), x) == 0
  {
    if rest != [] {
      NotLater(rest[1..], x);
    }
  }

  /** Every stop is called as often as runs were started: once each exactly when the first call of
      `shutdown` is not disturbed before its first `await`. */
  lemma StoppedOnceWhenUndisturbed(w: World, resources: seq<Resource>)
    requires Fresh(w) && NamesDistinct(resources)
    ensures var order := StopOrder(resources);
            var t := Shutdown(w, order);
            && t.promise
            && (forall r :: r in resources ==> Calls(t, r.name) == t.runs)
            && (t.runs == 1 <==> Undisturbed(w, order))
  {
    var order := StopOrder(resources);
    var t := Shutdown(w, order);
    StopOrderIs(resources);
    forall r | r in resources ensures Calls(t, r.name) == t.runs {
      CountOfDistinct(order, r);
      ShutdownCalls(w, order, r.name);
      assert Count([], r.name) == 0 && StillToCall([], r.name) == 0;
    }
    if !w.listener {
      WindowRuns(w.(runs := 1), order, order);
    } else {
      var nested := w.(listener := false);
      assert Shutdown(nested, order).runs >= 1;
    }
  }
}
