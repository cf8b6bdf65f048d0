/** apps/zhi-slack-bridge/src/pending-calls.ts: calls that wait for a reply in their thread. */
module PendingCalls {
  import opened Wrappers

  /** Each wait hands out a promise; promises are numbered in order. */
  datatype Entry = Entry(threadTs: string, promise: nat, timed: bool)

  datatype Ending = Replied(response: string) | TimedOut | ShutDown

  datatype Settlement = Settlement(promise: nat, ending: Ending)

  /** The two maps, the armed timers by promise, what has been settled, and the number of promises. */
  datatype State = State(pending: map<string, Entry>, threads: map<string, string>, timers: map<nat, string>,
                         settled: seq<Settlement>, issued: nat)

  // ------------------------------------------------------------------------------- operations

  function Wait(s: State, callId: string, threadTs: string, timed: bool): State {
    State(s.pending[callId := Entry(threadTs, s.issued, timed)], s.threads[threadTs := callId],
          if timed then s.timers[s.issued := callId] else s.timers, s.settled, s.issued + 1)
  }

  function Cleanup(s: State, callId: string): State {
    if callId !in s.pending then s
    else s.(threads := s.threads - {s.pending[callId].threadTs}, pending := s.pending - {callId})
  }

  function Settle(s: State, promise: nat, ending: Ending): State {
    s.(settled := s.settled + [Settlement(promise, ending)])
  }

  function ResolveCall(s: State, callId: string, response: string): State {
    if callId !in s.pending then s
    else
      var p := s.pending[callId].promise;
      var cleared := if s.pending[callId].timed then s.(timers := s.timers - {p}) else s;
      Cleanup(Settle(cleared, p, Replied(response)), callId)
  }

  /** The empty string is not taken for a call id. */
  function CallOf(s: State, threadTs: string): Option<string> {
    if threadTs in s.threads && s.threads[threadTs] != "" then Some(s.threads[threadTs]) else None
  }

  function ResolveByThreadTs(s: State, threadTs: string, response: string): State {
    match CallOf(s, threadTs)
    case None => s
    case Some(callId) => ResolveCall(s, callId, response)
  }

  /** An armed timer goes off. */
  function Fire(s: State, promise: nat): State {
    if promise !in s.timers then s
    else Settle(Cleanup(s.(timers := s.timers - {promise}), s.timers[promise]), promise, TimedOut)
  }

  function RejectAll(s: State, callIds: seq<string>): State
    decreases |callIds|
  {
    if callIds == [] || callIds[0] !in s.pending then s
    else
      var entry := s.pending[callIds[0]];
      var cleared := if entry.timed then s.(timers := s.timers - {entry.promise}) else s;
      RejectAll(Settle(cleared, entry.promise, ShutDown), callIds[1..])
  }

  /** `callIds` is the iteration order of the map. */
  function CancelAll(s: State, callIds: seq<string>): State {
    RejectAll(s, callIds).(pending := map[], threads := map[])
  }

  // ------------------------------------------------------------------ the maps mirror each other

  ghost predicate Mirrored(s: State) {
    && (forall c :: c in s.pending ==> s.pending[c].threadTs in s.threads && s.threads[s.pending[c].threadTs] == c)
    && (forall t :: t in s.threads ==> s.threads[t] in s.pending && s.pending[s.threads[t]].threadTs == t)
  }

  predicate Fits(s: State, callId: string, threadTs: string) {
    && (callId in s.pending ==> s.pending[callId].threadTs == threadTs)
    && (threadTs in s.threads ==> s.threads[threadTs] == callId)
  }

  /** A wait keeps the maps in step exactly when neither its id nor its thread is in use with another
      partner; every other operation keeps them in step. */
  lemma WaitMirrors(s: State, callId: string, threadTs: string, timed: bool)
    requires Mirrored(s)
    ensures Mirrored(Wait(s, callId, threadTs, timed)) <==> Fits(s, callId, threadTs)
  {
    var t := Wait(s, callId, threadTs, timed);
    if callId in s.pending && s.pending[callId].threadTs != threadTs {
      assert t.threads[s.pending[callId].threadTs] == callId;
    }
    if threadTs in s.threads && s.threads[threadTs] != callId {
      assert t.pending[s.threads[threadTs]].threadTs == threadTs;
    }
  }

  lemma CleanupMirrors(s: State, callId: string)
    requires Mirrored(s)
    ensures Mirrored(Cleanup(s, callId))
  {
  }

  lemma OthersMirror(s: State, callId: string, response: string, promise: nat, threadTs: string, callIds: seq<string>)
    requires Mirrored(s)
    ensures Mirrored(ResolveCall(s, callId, response)) && Mirrored(ResolveByThreadTs(s, threadTs, response))
    ensures Mirrored(Fire(s, promise)) && Mirrored(CancelAll(s, callIds))
  {
    CleanupMirrors(s, callId);
    if CallOf(s, threadTs).Some? { CleanupMirrors(s, CallOf(s, threadTs).value); }
    if promise in s.timers { CleanupMirrors(s, s.timers[promise]); }
  }

  // ------------------------------------------------------------------- settled at most once

  ghost predicate IsSettled(s: State, promise: nat) {
    exists i :: 0 <= i < |s.settled| && s.settled[i].promise == promise
  }

  ghost predicate IsPending(s: State, promise: nat) {
    exists c :: c in s.pending && s.pending[c].promise == promise
  }

  /** Nothing that can still settle a promise belongs to one that is settled. */
  ghost predicate Once(s: State) {
    && (forall i, j :: 0 <= i < j < |s.settled| ==> s.settled[i].promise != s.settled[j].promise)
    && (forall i :: 0 <= i < |s.settled| ==> s.settled[i].promise < s.issued)
    && (forall c :: c in s.pending ==> s.pending[c].promise < s.issued && !IsSettled(s, s.pending[c].promise))
    && (forall c, d :: c in s.pending && d in s.pending && c != d ==> s.pending[c].promise != s.pending[d].promise)
    && (forall p :: p in s.timers ==> p < s.issued && !IsSettled(s, p))
    && (forall c :: c in s.pending && s.pending[c].promise in s.timers ==>
         s.pending[c].timed && s.timers[s.pending[c].promise] == c)
  }

  lemma WaitOnce(s: State, callId: string, threadTs: string, timed: bool)
    requires Once(s)
    ensures Once(Wait(s, callId, threadTs, timed))
  {
    var t := Wait(s, callId, threadTs, timed);
    assert forall p :: IsSettled(t, p) <==> IsSettled(s, p);
  }

  lemma CleanupOnce(s: State, callId: string)
    requires Once(s)
    ensures Once(Cleanup(s, callId))
  {
    var t := Cleanup(s, callId);
    assert forall p :: IsSettled(t, p) <==> IsSettled(s, p);
  }

  lemma SettleOnce(s: State, promise: nat, ending: Ending)
    requires Once(s) && promise < s.issued && !IsSettled(s, promise) && promise !in s.timers && !IsPending(s, promise)
    ensures Once(Settle(s, promise, ending))
  {
    var t := Settle(s, promise, ending);
    forall p ensures IsSettled(t, p) <==> IsSettled(s, p) || p == promise {
      if IsSettled(s, p) {
        var i :| 0 <= i < |s.settled| && s.settled[i].promise == p;
        assert t.settled[i].promise == p;
      }
      assert t.settled[|s.settled|].promise == promise;
    }
  }

  lemma DisarmOnce(s: State, promise: nat)
    requires Once(s)
    ensures Once(s.(timers := s.timers - {promise}))
  {
    assert forall p :: IsSettled(s.(timers := s.timers - {promise}), p) <==> IsSettled(s, p);
  }

  lemma ResolveOnce(s: State, callId: string, response: string)
    requires Once(s)
    ensures Once(ResolveCall(s, callId, response))
  {
    if callId in s.pending {
      var p := s.pending[callId].promise;
      var cleared := if s.pending[callId].timed then s.(timers := s.timers - {p}) else s;
      DisarmOnce(s, p);
      CleanupOnce(cleared, callId);
      assert forall q :: IsSettled(Cleanup(cleared, callId), q) <==> IsSettled(s, q);
      SettleOnce(Cleanup(cleared, callId), p, Replied(response));
    }
  }

  lemma FireOnce(s: State, promise: nat)
    requires Once(s)
    ensures Once(Fire(s, promise))
  {
    if promise in s.timers {
      var disarmed := s.(timers := s.timers - {promise});
      DisarmOnce(s, promise);
      CleanupOnce(disarmed, s.timers[promise]);
      var cleaned := Cleanup(disarmed, s.timers[promise]);
      assert forall q :: IsSettled(cleaned, q) <==> IsSettled(s, q);
      SettleOnce(cleaned, promise, TimedOut);
    }
  }

  ghost predicate Lists(s: State, callIds: seq<string>) {
    && (forall i, j :: 0 <= i < j < |callIds| ==> callIds[i] != callIds[j])
    && forall c :: c in callIds <==> c in s.pending
  }

  /** One round of the loop of `cancelAll`, if the call were dropped from the map at once. */
  function RejectOne(s: State, c: string): State
    requires c in s.pending
  {
    var entry := s.pending[c];
    var cleared := if entry.timed then s.(timers := s.timers - {entry.promise}) else s;
    Settle(cleared, entry.promise, ShutDown).(pending := s.pending - {c})
  }

  lemma RejectOneOnce(s: State, c: string)
    requires Once(s) && c in s.pending
    ensures Once(RejectOne(s, c))
    ensures forall p :: IsSettled(RejectOne(s, c), p) || IsPending(RejectOne(s, c), p) <==>
        IsSettled(s, p) || IsPending(s, p)
  {
    var entry := s.pending[c];
    var cleared := if entry.timed then s.(timers := s.timers - {entry.promise}) else s;
    DisarmOnce(s, entry.promise);
    DropOnce(cleared, c);
    SettleOnce(cleared.(pending := s.pending - {c}), entry.promise, ShutDown);
    var fewer := RejectOne(s, c);
    forall p ensures IsSettled(fewer, p) || IsPending(fewer, p) <==> IsSettled(s, p) || IsPending(s, p) {
      SettledGrows(s.settled, entry.promise, p);
      if IsPending(s, p) {
        var d :| d in s.pending && s.pending[d].promise == p;
        assert d != c ==> d in fewer.pending && fewer.pending[d].promise == p;
      }
    }
  }

  lemma {:induction false} RejectAllOnce(s: State, callIds: seq<string>)
    requires Once(s) && Lists(s, callIds)
    ensures Once(RejectAll(s, callIds).(pending := map[], threads := map[]))
    ensures forall p :: IsSettled(RejectAll(s, callIds), p) <==> IsSettled(s, p) || IsPending(s, p)
    decreases |callIds|
  {
    if callIds == [] {
      var none := s.(pending := map[], threads := map[]);
      assert s.pending == map[];
      assert forall p :: IsSettled(none, p) <==> IsSettled(s, p);
    } else {
      var c := callIds[0];
      var fewer := RejectOne(s, c);
      RejectOneOnce(s, c);
      assert callIds == [c] + callIds[1..];
      assert Lists(fewer, callIds[1..]);
      RejectAllOnce(fewer, callIds[1..]);
      SameRejects(fewer.(pending := s.pending), fewer, callIds[1..]);
      assert forall p :: IsSettled(RejectAll(s, callIds), p) <==> IsSettled(RejectAll(fewer, callIds[1..]), p);
    }
  }

  lemma SettledGrows(settled: seq<Settlement>, promise: nat, p: nat)
    ensures var more := settled + [Settlement(promise, ShutDown)];
            (exists i :: 0 <= i < |more| && more[i].promise == p) <==>
              p == promise || exists i :: 0 <= i < |settled| && settled[i].promise == p
  {
    var more := settled + [Settlement(promise, ShutDown)];
    assert more[|settled|].promise == promise;
    assert forall i :: 0 <= i < |settled| ==> more[i] == settled[i];
  }

  lemma DropOnce(s: State, callId: string)
    requires Once(s)
    ensures Once(s.(pending := s.pending - {callId}))
  {
    assert forall p :: IsSettled(s.(pending := s.pending - {callId}), p) <==> IsSettled(s, p);
  }

  lemma {:induction false} SameRejects(s: State, fewer: State, callIds: seq<string>)
    requires fewer == s.(pending := fewer.pending) && forall c :: c in callIds ==>
        c in s.pending && c in fewer.pending && s.pending[c] == fewer.pending[c]
    ensures RejectAll(s, callIds) == RejectAll(fewer, callIds).(pending := s.pending)
    decreases |callIds|
  {
    if callIds != [] {
      var entry := s.pending[callIds[0]];
      var cleared := if entry.timed then s.(timers := s.timers - {entry.promise}) else s;
      var clearedFewer := if entry.timed then fewer.(timers := fewer.timers - {entry.promise}) else fewer;
      SameRejects(Settle(cleared, entry.promise, ShutDown), Settle(clearedFewer, entry.promise, ShutDown),
        callIds[1..]);
    }
  }

  lemma CancelOnce(s: State, callIds: seq<string>)
    requires Once(s) && Lists(s, callIds)
    ensures Once(CancelAll(s, callIds)) && forall p :: IsSettled(CancelAll(s, callIds), p) <==>
        IsSettled(s, p) || IsPending(s, p)
  {
    RejectAllOnce(s, callIds);
    var t := CancelAll(s, callIds);
    assert forall p :: IsSettled(t, p) <==> IsSettled(RejectAll(s, callIds), p);
  }

  // ------------------------------------------------------------------------------------ runs

  datatype Op = Waits(callId: string, threadTs: string, timed: bool)
              | Resolves(resolved: string, response: string)
              | Replies(thread: string, reply: string)
              | Fires(promise: nat)
              | Cancels(order: seq<string>)

  function Apply(s: State, op: Op): State {
    match op
    case Waits(c, t, timed) => Wait(s, c, t, timed)
    case Resolves(c, response) => ResolveCall(s, c, response)
    case Replies(t, reply) => ResolveByThreadTs(s, t, reply)
    case Fires(p) => Fire(s, p)
    case Cancels(order) => CancelAll(s, order)
  }

  /** `cancelAll` goes through the keys of the map as they are. */
  ghost predicate Possible(s: State, op: Op) {
    op.Cancels? ==> Lists(s, op.order)
  }

  function Run(s: State, ops: seq<Op>): State {
    if ops == [] then s else Apply(Run(s, ops[..|ops| - 1]), ops[|ops| - 1])
  }

  ghost predicate AllPossible(s: State, ops: seq<Op>) {
    forall n :: 0 <= n < |ops| ==> Possible(Run(s, ops[..n]), ops[n])
  }

  lemma ApplyOnce(s: State, op: Op)
    requires Once(s) && Possible(s, op)
    ensures Once(Apply(s, op))
  {
    match op {
      case Waits(c, t, timed) => WaitOnce(s, c, t, timed);
      case Resolves(c, response) => ResolveOnce(s, c, response);
      case Replies(t, reply) =>
        if CallOf(s, t).Some? { ResolveOnce(s, CallOf(s, t).value, reply); }
      case Fires(p) => FireOnce(s, p);
      case Cancels(order) => CancelOnce(s, order);
    }
  }

  lemma PossiblePrefix(s: State, ops: seq<Op>)
    requires ops != [] && AllPossible(s, ops)
    ensures AllPossible(s, ops[..|ops| - 1]) && Possible(Run(s, ops[..|ops| - 1]), ops[|ops| - 1])
  {
    var n := |ops| - 1;
    forall k | 0 <= k < n ensures Possible(Run(s, ops[..n][..k]), ops[..n][k]) {
      assert ops[..n][..k] == ops[..k];
      assert Possible(Run(s, ops[..k]), ops[k]);
    }
  }

  /** In every run, even one that reuses ids and threads, no call is answered twice. */
  lemma {:induction false} SettledAtMostOnce(s: State, ops: seq<Op>)
    requires Once(s) && AllPossible(s, ops)
    ensures Once(Run(s, ops))
  {
    if ops != [] {
      PossiblePrefix(s, ops);
      SettledAtMostOnce(s, ops[..|ops| - 1]);
      ApplyOnce(Run(s, ops[..|ops| - 1]), ops[|ops| - 1]);
    }
  }

  // -------------------------------------------------------------------------- none is forgotten

  /** Every promise is either waiting in the map or settled, and every timer belongs to a waiting call. */
  ghost predicate Accounted(s: State) {
    && (forall p: nat :: p < s.issued ==> IsPending(s, p) || IsSettled(s, p))
    && (forall p :: p in s.timers ==> s.timers[p] in s.pending && s.pending[s.timers[p]].promise == p)
  }

  ghost predicate Good(s: State) {
    Mirrored(s) && Once(s) && Accounted(s)
  }

  predicate FreshWait(s: State, op: Op) {
    op.Waits? ==> op.callId !in s.pending && op.threadTs !in s.threads
  }

  lemma FreshWaitAccounted(s: State, callId: string, threadTs: string, timed: bool, p: nat)
    requires Accounted(s) && callId !in s.pending && p <= s.issued
    ensures IsPending(Wait(s, callId, threadTs, timed), p) || IsSettled(Wait(s, callId, threadTs, timed), p)
  {
    var t := Wait(s, callId, threadTs, timed);
    assert IsSettled(t, p) <==> IsSettled(s, p);
    assert t.pending[callId].promise == s.issued;
    if p < s.issued && IsPending(s, p) {
      var c :| c in s.pending && s.pending[c].promise == p;
      assert c in t.pending && t.pending[c].promise == p;
    }
  }

  lemma ReuseForgets(s: State, callId: string, threadTs: string, timed: bool)
    requires Once(s) && callId in s.pending
    ensures var t, first := Wait(s, callId, threadTs, timed), s.pending[callId].promise;
            first < t.issued && !IsSettled(t, first) && !IsPending(t, first)
  {
    var t, first := Wait(s, callId, threadTs, timed), s.pending[callId].promise;
    assert IsSettled(t, first) <==> IsSettled(s, first);
  }

  /** A wait forgets no call exactly when its id is not in use. */
  lemma WaitAccounted(s: State, callId: string, threadTs: string, timed: bool)
    requires Once(s) && Accounted(s)
    ensures Accounted(Wait(s, callId, threadTs, timed)) <==> callId !in s.pending
  {
    if callId in s.pending {
      ReuseForgets(s, callId, threadTs, timed);
    } else {
      forall p: nat | p <= s.issued
        ensures IsPending(Wait(s, callId, threadTs, timed), p) || IsSettled(Wait(s, callId, threadTs, timed), p)
      {
        FreshWaitAccounted(s, callId, threadTs, timed, p);
      }
    }
  }

  lemma SettledThen(s: State, promise: nat, ending: Ending, p: nat)
    ensures IsSettled(Settle(s, promise, ending), p) <==> p == promise || IsSettled(s, p)
  {
    var t := Settle(s, promise, ending);
    assert t.settled[|s.settled|].promise == promise;
    assert forall i :: 0 <= i < |s.settled| ==> t.settled[i] == s.settled[i];
  }

  /** Answering one call and dropping it. */
  lemma FinishAccounted(s: State, t: State, callId: string, ending: Ending)
    requires Once(s) && Accounted(s) && callId in s.pending
    requires var promise := s.pending[callId].promise;
             t == Cleanup(Settle(s.(timers := s.timers - {promise}), promise, ending), callId)
    ensures Accounted(t)
  {
    var promise := s.pending[callId].promise;
    var disarmed := s.(timers := s.timers - {promise});
    forall p: nat | p < t.issued ensures IsPending(t, p) || IsSettled(t, p) {
      SettledThen(disarmed, promise, ending, p);
      assert IsSettled(t, p) <==> IsSettled(Settle(disarmed, promise, ending), p);
      assert IsSettled(disarmed, p) <==> IsSettled(s, p);
      if IsPending(s, p) && p != promise {
        var c :| c in s.pending && s.pending[c].promise == p;
        assert c in t.pending && t.pending[c].promise == p;
      }
    }
  }

  lemma ResolveAccounted(s: State, callId: string, response: string)
    requires Once(s) && Accounted(s)
    ensures Accounted(ResolveCall(s, callId, response))
  {
    if callId in s.pending {
      var promise := s.pending[callId].promise;
      if !s.pending[callId].timed {
        assert promise !in s.timers;
        assert s.timers - {promise} == s.timers;
      }
      FinishAccounted(s, ResolveCall(s, callId, response), callId, Replied(response));
    }
  }

  lemma ApplyAccounted(s: State, op: Op)
    requires Good(s) && Possible(s, op) && FreshWait(s, op)
    ensures Accounted(Apply(s, op))
  {
    match op {
      case Waits(c, t, timed) => WaitAccounted(s, c, t, timed);
      case Resolves(c, response) => ResolveAccounted(s, c, response);
      case Replies(t, reply) =>
        if CallOf(s, t).Some? { ResolveAccounted(s, CallOf(s, t).value, reply); }
      case Fires(p) =>
        if p in s.timers { FinishAccounted(s, Fire(s, p), s.timers[p], TimedOut); }
      case Cancels(order) => CancelAccounted(s, order);
    }
  }

  lemma {:induction false} RejectAllTimers(s: State, callIds: seq<string>)
    requires forall c :: c in callIds ==> c in s.pending
    ensures RejectAll(s, callIds).issued == s.issued
    ensures forall p :: p in RejectAll(s, callIds).timers <==>
              p in s.timers && forall c :: c in callIds && s.pending[c].timed ==> s.pending[c].promise != p
    decreases |callIds|
  {
    if callIds != [] {
      var entry := s.pending[callIds[0]];
      var cleared := if entry.timed then s.(timers := s.timers - {entry.promise}) else s;
      assert callIds == [callIds[0]] + callIds[1..];
      RejectAllTimers(Settle(cleared, entry.promise, ShutDown), callIds[1..]);
    }
  }

  lemma CancelAccounted(s: State, callIds: seq<string>)
    requires Once(s) && Accounted(s) && Lists(s, callIds)
    ensures Accounted(CancelAll(s, callIds)) && CancelAll(s, callIds).timers == map[]
  {
    CancelOnce(s, callIds);
    RejectAllTimers(s, callIds);
    var t := CancelAll(s, callIds);
    forall p ensures p !in t.timers {
      if p in s.timers {
        var c := s.timers[p];
        assert c in callIds && s.pending[c].timed && s.pending[c].promise == p;
      }
    }
  }

  function After(s: State, ops: seq<Op>, n: nat): State
    requires n <= |ops|
  {
    Run(s, ops[..n])
  }

  ghost predicate FreshAt(s: State, ops: seq<Op>, n: nat)
    requires n < |ops|
  {
    FreshWait(After(s, ops, n), ops[n])
  }

  ghost predicate FreshRun(s: State, ops: seq<Op>) {
    forall n :: 0 <= n < |ops| ==> FreshAt(s, ops, n)
  }

  ghost predicate GoodAt(s: State, ops: seq<Op>, n: nat)
    requires n <= |ops|
  {
    Good(After(s, ops, n))
  }

  ghost predicate AlwaysGood(s: State, ops: seq<Op>) {
    forall n :: 0 <= n <= |ops| ==> GoodAt(s, ops, n)
  }

  lemma ApplyGood(s: State, op: Op)
    requires Good(s) && Possible(s, op) && FreshWait(s, op)
    ensures Good(Apply(s, op))
  {
    ApplyOnce(s, op);
    ApplyAccounted(s, op);
    match op {
      case Waits(c, t, timed) => WaitMirrors(s, c, t, timed);
      case Resolves(c, response) => OthersMirror(s, c, response, 0, "", []);
      case Replies(t, reply) => OthersMirror(s, "", reply, 0, t, []);
      case Fires(p) => OthersMirror(s, "", "", p, "", []);
      case Cancels(order) => OthersMirror(s, "", "", 0, "", order);
    }
  }

  /** One operation keeps all in order exactly when it is no wait under an id or in a thread in use. */
  lemma StepIsGood(s: State, op: Op)
    requires Good(s) && Possible(s, op)
    ensures Good(Apply(s, op)) <==> FreshWait(s, op)
  {
    if FreshWait(s, op) {
      ApplyGood(s, op);
    } else if op.callId in s.pending {
      WaitAccounted(s, op.callId, op.threadTs, op.timed);
    } else {
      WaitMirrors(s, op.callId, op.threadTs, op.timed);
    }
  }

  lemma AfterPrefix(s: State, ops: seq<Op>, m: nat, n: nat)
    requires n <= m <= |ops|
    ensures After(s, ops[..m], n) == After(s, ops, n)
  {
    assert ops[..m][..n] == ops[..n];
  }

  lemma FreshSnoc(s: State, ops: seq<Op>, m: nat)
    requires |ops| == m + 1
    ensures FreshRun(s, ops) <==> FreshRun(s, ops[..m]) && FreshAt(s, ops, m)
  {
    forall n: nat | n < m ensures FreshAt(s, ops[..m], n) <==> FreshAt(s, ops, n) {
      AfterPrefix(s, ops, m, n);
    }
  }

  lemma GoodSnoc(s: State, ops: seq<Op>, m: nat)
    requires |ops| == m + 1
    ensures AlwaysGood(s, ops) <==> AlwaysGood(s, ops[..m]) && GoodAt(s, ops, m + 1)
    ensures AlwaysGood(s, ops[..m]) ==> GoodAt(s, ops, m)
  {
    forall n: nat | n <= m ensures GoodAt(s, ops[..m], n) <==> GoodAt(s, ops, n) {
      AfterPrefix(s, ops, m, n);
    }
  }

  lemma NextIsGood(s: State, ops: seq<Op>, m: nat)
    requires |ops| == m + 1 && GoodAt(s, ops, m) && Possible(After(s, ops, m), ops[m])
    ensures GoodAt(s, ops, m + 1) <==> FreshWait(After(s, ops, m), ops[m])
  {
    assert ops[..m + 1] == ops;
    StepIsGood(After(s, ops, m), ops[m]);
  }

  /** At every point of a run the maps mirror each other and every call is waiting or has been answered once,
      exactly when its waits use ids and threads that are not in use. */
  lemma {:induction false} FreshRunsAreGood(s: State, ops: seq<Op>)
    requires Good(s) && AllPossible(s, ops)
    ensures FreshRun(s, ops) <==> AlwaysGood(s, ops)
  {
    if ops == [] {
      assert GoodAt(s, ops, 0);
    } else {
      var m := |ops| - 1;
      PossiblePrefix(s, ops);
      FreshRunsAreGood(s, ops[..m]);
      FreshSnoc(s, ops, m);
      GoodSnoc(s, ops, m);
      if AlwaysGood(s, ops[..m]) {
        NextIsGood(s, ops, m);
      }
    }
  }

  lemma GoodInTheEnd(s: State, ops: seq<Op>)
    requires Good(s) && AllPossible(s, ops) && FreshRun(s, ops)
    ensures Good(Run(s, ops))
  {
    FreshRunsAreGood(s, ops);
    assert GoodAt(s, ops, |ops|);
    assert ops[..|ops|] == ops;
  }

  /** The reply in a thread is for this call: it was the last to wait there, and its id is not empty. */
  predicate Addressed(s: State, callId: string) {
    callId in s.pending && CallOf(s, s.pending[callId].threadTs) == Some(callId)
  }

  /** A reply in the thread of a waiting call answers that call when it is the one the thread stands for, and
      otherwise leaves it waiting. As long as the maps mirror each other it is, unless its id is empty. */
  lemma ReplyReachesCall(s: State, callId: string, response: string)
    requires callId in s.pending
    ensures var t := ResolveByThreadTs(s, s.pending[callId].threadTs, response);
            if Addressed(s, callId) then
              && callId !in t.pending
              && t.settled == s.settled + [Settlement(s.pending[callId].promise, Replied(response))]
            else
              callId in t.pending && t.pending[callId] == s.pending[callId]
    ensures Mirrored(s) ==> (Addressed(s, callId) <==> callId != "")
  {
  }

  /** A call that its thread does not stand for is not reached by replies again, unless it waits anew. */
  lemma UnaddressedForever(s: State, op: Op, callId: string)
    requires callId in s.pending && !Addressed(s, callId) && !(op.Waits? && op.callId == callId)
    requires Possible(s, op)
    ensures callId in Apply(s, op).pending ==> !Addressed(Apply(s, op), callId)
  {
    match op {
      case Cancels(order) =>
      case Waits(_, _, _) =>
      case Resolves(c, _) =>
      case Replies(t, _) =>
      case Fires(p) =>
    }
  }

  /** Two waits in one thread: a reply answers the second, and the first goes on waiting for none. */
  lemma ThreadTakenOver(s: State, first: string, second: string, threadTs: string, timed: bool, response: string,
          later: string)
    requires first != second && second != "" && first !in s.pending && second !in s.pending
    ensures var waiting := Wait(Wait(s, first, threadTs, timed), second, threadTs, timed);
            var t := ResolveByThreadTs(waiting, threadTs, response);
            && t.settled == s.settled + [Settlement(s.issued + 1, Replied(response))]
            && first in t.pending && !Addressed(t, first)
            && ResolveByThreadTs(t, threadTs, later) == t
  {
  }

  // ------------------------------------------------------------------------- when ids are reused

  /** Nothing is left that could settle the promise. */
  ghost predicate Stranded(s: State, promise: nat) {
    promise < s.issued && !IsSettled(s, promise) && !IsPending(s, promise) && promise !in s.timers
  }

  /** Waiting again under an id in use strands the first call, unless its timer is still to come. */
  lemma ReuseStrands(s: State, callId: string, threadTs: string, timed: bool)
    requires Once(s) && callId in s.pending
    ensures Stranded(Wait(s, callId, threadTs, timed), s.pending[callId].promise) <==>
        s.pending[callId].promise !in s.timers
  {
    ReuseForgets(s, callId, threadTs, timed);
  }

  /** The operation takes the only entry of the promise away without settling it, and no timer is left for
      it: either its id is waited under again, or a timer of an earlier call under its id goes off. */
  predicate Strands(s: State, op: Op, promise: nat) {
    promise !in s.timers &&
    match op
    case Waits(c, _, _) => c in s.pending && s.pending[c].promise == promise
    case Fires(p) =>
      p in s.timers && p != promise && s.timers[p] in s.pending && s.pending[s.timers[p]].promise == promise
    case _ => false
  }

  /** In any state an operation strands a call in exactly these two ways. */
  lemma StrandsExactly(s: State, op: Op, promise: nat)
    requires Once(s) && Possible(s, op) && promise < s.issued && !Stranded(s, promise)
    ensures Stranded(Apply(s, op), promise) <==> Strands(s, op, promise)
  {
    match op {
      case Waits(c, t, timed) => WaitStrands(s, c, t, timed, promise);
      case Resolves(c, response) => ResolveStrandsNone(s, c, response, promise);
      case Replies(t, reply) =>
        if CallOf(s, t).Some? { ResolveStrandsNone(s, CallOf(s, t).value, reply, promise); }
      case Fires(p) => FireStrands(s, p, promise);
      case Cancels(order) => CancelStrandsNone(s, order, promise);
    }
  }

  lemma CancelStrandsNone(s: State, callIds: seq<string>, promise: nat)
    requires Once(s) && Lists(s, callIds) && promise < s.issued && !Stranded(s, promise)
    ensures !Stranded(CancelAll(s, callIds), promise)
  {
    CancelOnce(s, callIds);
    RejectAllTimers(s, callIds);
    if promise in s.timers && !IsPending(s, promise) {
      assert forall c :: c in callIds ==> s.pending[c].promise != promise;
      assert promise in CancelAll(s, callIds).timers;
    }
  }

  lemma WaitStrands(s: State, callId: string, threadTs: string, timed: bool, promise: nat)
    requires Once(s) && promise < s.issued && !Stranded(s, promise)
    ensures Stranded(Wait(s, callId, threadTs, timed), promise) <==> Strands(s, Waits(callId, threadTs, timed), promise)
  {
    var t := Wait(s, callId, threadTs, timed);
    assert IsSettled(t, promise) <==> IsSettled(s, promise);
    if IsPending(s, promise) {
      var c :| c in s.pending && s.pending[c].promise == promise;
      if c != callId {
        assert c in t.pending && t.pending[c].promise == promise;
        assert IsPending(t, promise);
      } else {
        assert !IsPending(t, promise);
      }
    }
  }

  lemma ResolveStrandsNone(s: State, callId: string, response: string, promise: nat)
    requires Once(s) && promise < s.issued && !Stranded(s, promise)
    ensures !Stranded(ResolveCall(s, callId, response), promise)
  {
    if callId in s.pending {
      var t, first := ResolveCall(s, callId, response), s.pending[callId].promise;
      var cleared := if s.pending[callId].timed then s.(timers := s.timers - {first}) else s;
      SettledThen(cleared, first, Replied(response), promise);
      assert IsSettled(t, promise) <==> IsSettled(Settle(cleared, first, Replied(response)), promise);
      assert IsSettled(cleared, promise) <==> IsSettled(s, promise);
      if IsPending(s, promise) && promise != first {
        var c :| c in s.pending && s.pending[c].promise == promise;
        assert c in t.pending && t.pending[c].promise == promise;
      }
    }
  }

  lemma FireStrands(s: State, fired: nat, promise: nat)
    requires Once(s) && promise < s.issued && !Stranded(s, promise)
    ensures Stranded(Fire(s, fired), promise) <==> Strands(s, Fires(fired), promise)
  {
    if fired in s.timers {
      var t, callId := Fire(s, fired), s.timers[fired];
      var cleaned := Cleanup(s.(timers := s.timers - {fired}), callId);
      SettledThen(cleaned, fired, TimedOut, promise);
      assert IsSettled(cleaned, promise) <==> IsSettled(s, promise);
      if IsPending(s, promise) {
        var c :| c in s.pending && s.pending[c].promise == promise;
        if c != callId {
          assert c in t.pending && t.pending[c].promise == promise;
          assert IsPending(t, promise);
        } else {
          assert !IsPending(t, promise);
        }
      }
    }
  }

  /** When the first call does have a timer and it goes off, it takes the entry of the second call, which
      is then stranded unless it has a timer of its own. */
  lemma TimeoutStrandsSecond(s: State, callId: string, threadTs: string, timed: bool)
    requires Once(s) && callId in s.pending && s.pending[callId].promise in s.timers
    ensures var second := s.issued;
            Stranded(Fire(Wait(s, callId, threadTs, timed), s.pending[callId].promise), second) <==> !timed
  {
    var t, second := Wait(s, callId, threadTs, timed), s.issued;
    WaitOnce(s, callId, threadTs, timed);
    assert callId in t.pending && t.pending[callId].promise == second;
    assert IsPending(t, second);
    FireStrands(t, s.pending[callId].promise, second);
  }

  lemma SettlesOnly(s: State, callId: string, response: string, p: nat)
    ensures IsSettled(ResolveCall(s, callId, response), p) ==>
        IsSettled(s, p) || (callId in s.pending && p == s.pending[callId].promise)
  {
    if callId in s.pending {
      var promise := s.pending[callId].promise;
      var cleared := if s.pending[callId].timed then s.(timers := s.timers - {promise}) else s;
      SettledThen(cleared, promise, Replied(response), p);
      assert IsSettled(ResolveCall(s, callId, response), p) <==>
          IsSettled(Settle(cleared, promise, Replied(response)), p);
      assert IsSettled(cleared, p) <==> IsSettled(s, p);
    }
  }

  /** A stranded call stays so: no reply, timeout or shutdown reaches it. */
  lemma StrandedForever(s: State, op: Op, promise: nat)
    requires Once(s) && Possible(s, op) && Stranded(s, promise)
    ensures Stranded(Apply(s, op), promise)
  {
    match op {
      case Waits(c, t, timed) =>
        assert IsSettled(Apply(s, op), promise) <==> IsSettled(s, promise);
      case Resolves(c, response) => SettlesOnly(s, c, response, promise);
      case Replies(t, reply) =>
        if CallOf(s, t).Some? { SettlesOnly(s, CallOf(s, t).value, reply, promise); }
      case Fires(p) =>
        if p in s.timers {
          var cleaned := Cleanup(s.(timers := s.timers - {p}), s.timers[p]);
          SettledThen(cleaned, p, TimedOut, promise);
          assert IsSettled(cleaned, promise) <==> IsSettled(s, promise);
        }
      case Cancels(order) =>
        CancelOnce(s, order);
        RejectAllTimers(s, order);
    }
  }

  // ----------------------------------------------------------------------- how calls are answered

  /** The operation answers this promise in this way: a reply under its id or in the thread that stands for it,
      with the reply's own text; its timer, as timed out; cancelling, as shut down, when it is waiting. */
  ghost predicate Answers(s: State, op: Op, x: Settlement) {
    match op
    case Waits(_, _, _) => false
    case Resolves(c, response) => c in s.pending && x == Settlement(s.pending[c].promise, Replied(response))
    case Replies(t, reply) =>
      && t in s.threads && s.threads[t] != "" && s.threads[t] in s.pending
      && x == Settlement(s.pending[s.threads[t]].promise, Replied(reply))
    case Fires(p) => p in s.timers && x == Settlement(p, TimedOut)
    case Cancels(_) => x.ending == ShutDown && IsPending(s, x.promise)
  }

  lemma {:induction false} RejectAllSettles(s: State, callIds: seq<string>)
    requires forall c :: c in callIds ==> c in s.pending
    ensures var t := RejectAll(s, callIds);
            && |t.settled| == |s.settled| + |callIds| && t.settled[..|s.settled|] == s.settled
            && forall i :: 0 <= i < |callIds| ==>
                 t.settled[|s.settled| + i] == Settlement(s.pending[callIds[i]].promise, ShutDown)
    decreases |callIds|
  {
    if callIds != [] {
      var entry := s.pending[callIds[0]];
      var cleared := if entry.timed then s.(timers := s.timers - {entry.promise}) else s;
      var next := Settle(cleared, entry.promise, ShutDown);
      assert callIds == [callIds[0]] + callIds[1..];
      RejectAllSettles(next, callIds[1..]);
      var t := RejectAll(s, callIds);
      assert t.settled[..|s.settled|] == t.settled[..|next.settled|][..|s.settled|];
      assert t.settled[|s.settled|] == t.settled[..|next.settled|][|s.settled|];
      forall i | 1 <= i < |callIds|
        ensures t.settled[|s.settled| + i] == Settlement(s.pending[callIds[i]].promise, ShutDown)
      {
        assert callIds[1..][i - 1] == callIds[i];
        assert t.settled[|next.settled| + (i - 1)] == Settlement(next.pending[callIds[1..][i - 1]].promise, ShutDown);
      }
    }
  }

  ghost predicate IsNewIn(s: State, t: State, x: Settlement) {
    |s.settled| <= |t.settled| && x in t.settled[|s.settled|..]
  }

  lemma CancelAnswers(s: State, callIds: seq<string>, x: Settlement)
    requires Lists(s, callIds)
    ensures IsNewIn(s, CancelAll(s, callIds), x) <==> Answers(s, Cancels(callIds), x)
    ensures s.settled <= CancelAll(s, callIds).settled
  {
    RejectAllSettles(s, callIds);
    var t := CancelAll(s, callIds);
    if IsNewIn(s, t, x) {
      var i :| 0 <= i < |t.settled[|s.settled|..]| && t.settled[|s.settled|..][i] == x;
      assert t.settled[|s.settled| + i] == Settlement(s.pending[callIds[i]].promise, ShutDown);
      assert callIds[i] in s.pending;
    }
    if Answers(s, Cancels(callIds), x) {
      var c :| c in s.pending && s.pending[c].promise == x.promise;
      assert c in callIds;
      var i :| 0 <= i < |callIds| && callIds[i] == c;
      assert t.settled[|s.settled| + i] == x;
      assert t.settled[|s.settled|..][i] == x;
    }
  }

  /** One operation answers exactly these, each by its own kind of ending, and takes no answer back. */
  lemma StepAnswers(s: State, op: Op, x: Settlement)
    requires Possible(s, op)
    ensures IsNewIn(s, Apply(s, op), x) <==> Answers(s, op, x)
    ensures s.settled <= Apply(s, op).settled
  {
    var t := Apply(s, op);
    match op {
      case Cancels(order) => CancelAnswers(s, order, x);
      case Waits(_, _, _) => assert t.settled[|s.settled|..] == [];
      case Resolves(c, response) =>
        assert c !in s.pending ==> t.settled[|s.settled|..] == [];
        assert c in s.pending ==>
            t.settled[|s.settled|..] == [Settlement(s.pending[c].promise, Replied(response))];
      case Replies(thread, reply) =>
        assert CallOf(s, thread).None? || CallOf(s, thread).value !in s.pending ==> t.settled[|s.settled|..] == [];
        assert CallOf(s, thread).Some? && CallOf(s, thread).value in s.pending ==>
            t.settled[|s.settled|..] == [Settlement(s.pending[s.threads[thread]].promise, Replied(reply))];
      case Fires(p) =>
        assert p !in s.timers ==> t.settled[|s.settled|..] == [];
        assert p in s.timers ==> t.settled[|s.settled|..] == [Settlement(p, TimedOut)];
    }
  }

  ghost predicate AnsweredAt(s: State, ops: seq<Op>, x: Settlement, n: nat) {
    n < |ops| && Answers(After(s, ops, n), ops[n], x)
  }

  lemma NewInTwoSteps(s: State, t: State, u: State, x: Settlement)
    requires s.settled <= t.settled <= u.settled
    ensures IsNewIn(s, u, x) <==> IsNewIn(s, t, x) || IsNewIn(t, u, x)
  {
    assert u.settled[|s.settled|..] == t.settled[|s.settled|..] + u.settled[|t.settled|..];
  }

  lemma AnsweredSnoc(s: State, ops: seq<Op>, x: Settlement, m: nat)
    requires |ops| == m + 1
    ensures (exists n: nat :: AnsweredAt(s, ops, x, n)) <==>
              (exists n: nat :: AnsweredAt(s, ops[..m], x, n)) || Answers(After(s, ops, m), ops[m], x)
  {
    forall n: nat | n < m ensures AnsweredAt(s, ops[..m], x, n) <==> AnsweredAt(s, ops, x, n) {
      AfterPrefix(s, ops, m, n);
    }
    assert Answers(After(s, ops, m), ops[m], x) <==> AnsweredAt(s, ops, x, m);
  }

  /** Over a run, the answers given are exactly those some operation of it gives, and each has its cause: a text only
      ever comes from a reply with that text, a timeout from a timer that was armed, a shutdown from cancelling. */
  lemma {:induction false} AnswersHaveCauses(s: State, ops: seq<Op>, x: Settlement)
    requires AllPossible(s, ops)
    ensures s.settled <= Run(s, ops).settled
    ensures IsNewIn(s, Run(s, ops), x) <==> exists n: nat :: AnsweredAt(s, ops, x, n)
  {
    if ops != [] {
      var m := |ops| - 1;
      PossiblePrefix(s, ops);
      AnswersHaveCauses(s, ops[..m], x);
      StepAnswers(Run(s, ops[..m]), ops[m], x);
      NewInTwoSteps(s, Run(s, ops[..m]), Run(s, ops), x);
      AnsweredSnoc(s, ops, x, m);
    } else {
      assert s.settled[|s.settled|..] == [];
    }
  }

  /** Every call that waits with a timeout has its own timer armed. */
  ghost predicate Armed(s: State) {
    forall c :: c in s.pending && s.pending[c].timed ==>
      s.pending[c].promise in s.timers && s.timers[s.pending[c].promise] == c
  }

  lemma StepArmed(s: State, op: Op)
    requires Once(s) && Armed(s) && Possible(s, op)
    ensures Armed(Apply(s, op))
  {
    match op {
      case Waits(_, _, _) =>
      case Resolves(_, _) =>
      case Replies(_, _) =>
      case Fires(p) =>
      case Cancels(_) =>
    }
  }

  /** In every run, even one that reuses ids. */
  lemma {:induction false} TimersStayArmed(s: State, ops: seq<Op>)
    requires Once(s) && Armed(s) && AllPossible(s, ops)
    ensures Armed(Run(s, ops))
  {
    if ops != [] {
      PossiblePrefix(s, ops);
      TimersStayArmed(s, ops[..|ops| - 1]);
      SettledAtMostOnce(s, ops[..|ops| - 1]);
      StepArmed(Run(s, ops[..|ops| - 1]), ops[|ops| - 1]);
    }
  }

  // --------------------------------------------------------------------------------- the manager

  class PendingCallManager {
    var state: State

    constructor ()
      ensures state == State(map[], map[], map[], [], 0) && Good(state)
    {
      state := State(map[], map[], map[], [], 0);
    }

    /** `waitForResponse`; a timeout that is not positive is refused before anything happens. */
    method WaitForResponse(callId: string, threadTs: string, timeoutMs: Option<real>) returns (promise: Option<nat>)
      modifies this
      ensures promise.Some? <==> timeoutMs.None? || timeoutMs.value > 0.0
      ensures state == if promise.Some? then Wait(old(state), callId, threadTs, timeoutMs.Some?) else old(state)
      ensures promise.Some? ==> promise.value == old(state.issued)
    {
      if timeoutMs.Some? && timeoutMs.value <= 0.0 {
        return None;
      }
      promise := Some(state.issued);
      if timeoutMs.Some? {
        state := state.(timers := state.timers[state.issued := callId]);
      }
      state := state.(pending := state.pending[callId := Entry(threadTs, state.issued, timeoutMs.Some?)]);
      state := state.(threads := state.threads[threadTs := callId], issued := state.issued + 1);
    }

    method CleanUp(callId: string)
      modifies this
      ensures state == Cleanup(old(state), callId)
    {
      if callId !in state.pending {
        return;
      }
      state := state.(threads := state.threads - {state.pending[callId].threadTs});
      state := state.(pending := state.pending - {callId});
    }

    method Resolve(callId: string, response: string) returns (done: bool)
      modifies this
      ensures state == ResolveCall(old(state), callId, response) && (done <==> callId in old(state.pending))
    {
      if callId !in state.pending {
        return false;
      }
      var pending := state.pending[callId];
      if pending.timed {
        state := state.(timers := state.timers - {pending.promise});
      }
      state := Settle(state, pending.promise, Replied(response));
      CleanUp(callId);
      return true;
    }

    method ResolveByThread(threadTs: string, response: string) returns (callId: Option<string>)
      modifies this
      ensures state == ResolveByThreadTs(old(state), threadTs, response)
      ensures var named := CallOf(old(state), threadTs);
              callId == if named.Some? && named.value in old(state.pending) then named else None
      ensures Mirrored(old(state)) ==> callId == CallOf(old(state), threadTs)
    {
      callId := CallOf(state, threadTs);
      if callId.Some? {
        var resolved := Resolve(callId.value, response);
        if !resolved {
          return None;
        }
      }
    }

    /** The timer callback. */
    method TimeOut(promise: nat)
      requires promise in state.timers
      modifies this
      ensures state == Fire(old(state), promise)
    {
      var callId := state.timers[promise];
      state := state.(timers := state.timers - {promise});
      CleanUp(callId);
      state := Settle(state, promise, TimedOut);
    }

    method CancelEvery(callIds: seq<string>)
      requires Lists(state, callIds)
      modifies this
      ensures state == CancelAll(old(state), callIds)
    {
      ghost var before := state;
      for i := 0 to |callIds|
        invariant state.pending == before.pending && RejectAll(state, callIds[i..]) == RejectAll(before, callIds)
      {
        assert callIds[i..][1..] == callIds[i + 1..] && callIds[i] in callIds;
        var pending := state.pending[callIds[i]];
        if pending.timed {
          state := state.(timers := state.timers - {pending.promise});
        }
        state := Settle(state, pending.promise, ShutDown);
      }
      state := state.(pending := map[], threads := map[]);
    }
  }
}
