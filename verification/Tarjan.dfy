/** apps/server/scripts/check-module-boundaries.ts: Tarjan's algorithm over mutable maps and
    the component-size ratchet that reads its result. */
module Tarjan {
  import opened Digraph
  import opened Numbers
  import opened Sorting

  // ---------------------------------------------------------------- search state as a value

  /** What the invariant speaks about: discovery indexes, the node stack, the components. */
  datatype Search = Search(index: map<Node, nat>, stack: seq<Node>, components: seq<seq<Node>>) {
    ghost predicate Finished(x: Node) {
      x in index && x !in stack
    }
  }

  ghost predicate WellFormed(g: Graph, s: Search, next: nat) {
    && s.index.Keys <= AllNodes(g)
    && (forall x :: x in s.index ==> s.index[x] < next)
    && (forall i :: 0 <= i < |s.stack| ==> s.stack[i] in s.index)
    && (forall i, j :: 0 <= i < j < |s.stack| ==> s.index[s.stack[i]] < s.index[s.stack[j]])
  }

  /** `active` are the nodes whose `visit` call is still running. */
  ghost predicate Colours(g: Graph, s: Search, active: set<Node>) {
    && (forall x :: x in active ==> x in s.stack)
    && (forall x, y {:trigger y in Targets(g, x)} :: x in s.index && x !in active && y in Targets(g, x) ==>
         y in s.index)
    && (forall x, y {:trigger y in Targets(g, x)} :: s.Finished(x) && y in Targets(g, x) ==> s.Finished(y))
  }

  ghost predicate StackReach(g: Graph, s: Search) {
    forall i, j {:trigger Reach(g, s.stack[i], s.stack[j])} :: 0 <= i <= j < |s.stack| ==>
      Reach(g, s.stack[i], s.stack[j])
  }

  /** Stack position `k` holds a running node that position `i` can return to. */
  ghost predicate Returns(g: Graph, s: Search, active: set<Node>, i: int, k: int) {
    0 <= k <= i < |s.stack| && s.stack[k] in active && Reach(g, s.stack[i], s.stack[k])
  }

  ghost predicate CanReturn(g: Graph, s: Search, active: set<Node>, i: int) {
    exists k :: Returns(g, s, active, i, k)
  }

  ghost predicate ActiveReach(g: Graph, s: Search, active: set<Node>) {
    forall i :: 0 <= i < |s.stack| ==> CanReturn(g, s, active, i)
  }

  /** Some component among the first `n` holds `x`. */
  ghost predicate InSome(cs: seq<seq<Node>>, n: int, x: Node) {
    exists k :: 0 <= k < n <= |cs| && x in cs[k]
  }

  /** Emission is in reverse topological order: what a component reaches is in it or earlier. */
  ghost predicate Emitted(g: Graph, cs: seq<seq<Node>>) {
    && (forall i :: 0 <= i < |cs| ==> IsScc(g, cs[i]) && Distinct(cs[i]) && Ordered(cs[i], CodeUnitsAtMost))
    && (forall i, j, x {:trigger x in cs[i], x in cs[j]} :: 0 <= i < j < |cs| && x in cs[i] ==> x !in cs[j])
    && (forall i, x, y {:trigger Reach(g, x, y), x in cs[i]} :: 0 <= i < |cs| && x in cs[i] && Reach(g, x, y) ==>
         InSome(cs, i + 1, y))
  }

  ghost predicate Components(g: Graph, s: Search) {
    && Emitted(g, s.components)
    && (forall x {:trigger InSome(s.components, |s.components|, x)} :: s.Finished(x) <==>
         InSome(s.components, |s.components|, x))
  }

  ghost predicate Inv(g: Graph, s: Search, next: nat, active: set<Node>) {
    && WellFormed(g, s, next)
    && Colours(g, s, active)
    && StackReach(g, s)
    && ActiveReach(g, s, active)
    && Components(g, s)
  }

  /** An edge from stack position `j` above the base down to a stack node below it. */
  ghost predicate Crosses(g: Graph, s: Search, base: nat, j: int, y: Node) {
    base < j < |s.stack| && y in Targets(g, s.stack[j]) && y in s.stack[..base] && y in s.index
  }

  /** No edge leaves the stack from `base` upwards into the part below with an index under `low`.
      Of the node at `base` itself only the first `done` targets count. */
  ghost predicate CrossBound(g: Graph, s: Search, base: nat, done: nat, low: nat) {
    && base < |s.stack|
    && (forall j, y :: Crosses(g, s, base, j, y) ==> low <= s.index[y])
    && (forall m :: 0 <= m < done && m < |Targets(g, s.stack[base])| ==>
          var y := Targets(g, s.stack[base])[m];
          y in s.index && (y in s.stack[..base] ==> low <= s.index[y]))
  }

  ghost predicate IsWitness(g: Graph, s: Search, x: Node, low: nat, y: Node) {
    y in s.stack && y in s.index && s.index[y] == low && Reach(g, x, y)
  }

  /** `low` is the index of a stack node that `x` reaches. */
  ghost predicate LowWitness(g: Graph, s: Search, x: Node, low: nat) {
    && x in s.index && low <= s.index[x]
    && exists y :: IsWitness(g, s, x, low, y)
  }

  // ------------------------------------------------------------------------- invariant steps

  lemma Push(g: Graph, s: Search, next: nat, active: set<Node>, x: Node, t: Search)
    requires Inv(g, s, next, active)
    requires x in AllNodes(g) && x !in s.index
    requires forall z :: z in active ==> Reach(g, z, x)
    requires t == s.(index := s.index[x := next], stack := s.stack + [x])
    ensures Inv(g, t, next + 1, active + {x})
  {
    ReachSelf(g, x);
    forall i | 0 <= i < |s.stack| ensures Reach(g, s.stack[i], x) {
      assert CanReturn(g, s, active, i);
      var k :| Returns(g, s, active, i, k);
      ReachTransitive(g, s.stack[i], s.stack[k], x);
    }
    assert StackReach(g, t);
    forall i | 0 <= i < |t.stack| ensures CanReturn(g, t, active + {x}, i) {
      if i < |s.stack| {
        assert CanReturn(g, s, active, i);
        var k :| Returns(g, s, active, i, k);
        assert Returns(g, t, active + {x}, i, k);
      } else {
        assert Returns(g, t, active + {x}, i, i);
      }
    }
    assert forall z :: t.Finished(z) <==> s.Finished(z);
  }

  /** A node that reaches below itself on the stack can hand its returns on when its call ends. */
  lemma BlackenReturns(g: Graph, s: Search, next: nat, active: set<Node>, x: Node, low: nat)
    requires WellFormed(g, s, next) && ActiveReach(g, s, active + {x})
    requires x in s.stack && LowWitness(g, s, x, low) && low < s.index[x]
    ensures ActiveReach(g, s, active)
  {
    var y :| IsWitness(g, s, x, low, y);
    var b :| 0 <= b < |s.stack| && s.stack[b] == y;
    assert CanReturn(g, s, active + {x}, b);
    var k0 :| Returns(g, s, active + {x}, b, k0);
    var z := s.stack[k0];
    ReachTransitive(g, x, y, z);
    assert s.index[z] <= s.index[y];
    forall i | 0 <= i < |s.stack| ensures CanReturn(g, s, active, i) {
      assert CanReturn(g, s, active + {x}, i);
      var k :| Returns(g, s, active + {x}, i, k);
      if s.stack[k] == x {
        ReachTransitive(g, s.stack[i], x, z);
        assert k0 < k;
        assert Returns(g, s, active, i, k0);
      } else {
        assert Returns(g, s, active, i, k);
      }
    }
  }

  lemma Blacken(g: Graph, s: Search, next: nat, active: set<Node>, x: Node, low: nat)
    requires Inv(g, s, next, active + {x})
    requires x in s.stack && LowWitness(g, s, x, low) && low < s.index[x]
    requires forall y :: y in Targets(g, x) ==> y in s.index
    ensures Inv(g, s, next, active)
  {
    BlackenReturns(g, s, next, active, x, low);
  }

  // ---------------------------------------------------------------------- closing a component

  /** The situation in which `visit` pops: the node at `base` is the root, nothing crosses below. */
  ghost predicate AtRoot(g: Graph, s: Search, next: nat, active: set<Node>, base: nat) {
    && base < |s.stack|
    && Inv(g, s, next, active + {s.stack[base]})
    && (forall z :: z in active ==> z in s.stack[..base])
    && CrossBound(g, s, base, |Targets(g, s.stack[base])|, s.index[s.stack[base]])
  }

  lemma BelowIsSmaller(g: Graph, s: Search, next: nat, base: nat)
    requires WellFormed(g, s, next) && base <= |s.stack|
    ensures forall x, y :: x in s.stack[base..] && y in s.stack[..base] ==>
              x in s.index && y in s.index && s.index[y] < s.index[x]
  {
    forall x, y | x in s.stack[base..] && y in s.stack[..base]
      ensures x in s.index && y in s.index && s.index[y] < s.index[x]
    {
      var h :| 0 <= h < base && s.stack[..base][h] == y;
      assert s.stack[h] == y;
      var i :| 0 <= i < |s.stack| - base && s.stack[base..][i] == x;
      assert s.stack[base + i] == x;
    }
  }

  lemma StackSplits(g: Graph, s: Search, next: nat, base: nat)
    requires WellFormed(g, s, next) && base <= |s.stack|
    ensures forall y :: y in s.stack <==> y in s.stack[..base] || y in s.stack[base..]
    ensures forall y :: y in s.stack[..base] ==> y !in s.stack[base..]
  {
    assert s.stack == s.stack[..base] + s.stack[base..];
    BelowIsSmaller(g, s, next, base);
  }

  /** The part above the root, with everything finished, has no way out. */
  lemma TopIsClosed(g: Graph, s: Search, next: nat, active: set<Node>, base: nat)
    requires AtRoot(g, s, next, active, base)
    ensures forall x, y :: x in s.stack[base..] && y in Targets(g, x) ==> s.Finished(y) || y in s.stack[base..]
  {
    var root := s.stack[base];
    BelowIsSmaller(g, s, next, base);
    StackSplits(g, s, next, base);
    forall x, y | x in s.stack[base..] && y in Targets(g, x)
      ensures s.Finished(y) || y in s.stack[base..]
    {
      var i :| base <= i < |s.stack| && s.stack[i] == x;
      assert x !in active;
      if i == base {
        var m :| 0 <= m < |Targets(g, root)| && Targets(g, root)[m] == y;
        assert y in s.index;
      }
      assert Crosses(g, s, base, i, y) || i == base || y !in s.stack[..base] || y !in s.index;
      assert y !in s.stack[..base];
    }
  }

  lemma TopLeadsToFinished(g: Graph, s: Search, next: nat, active: set<Node>, base: nat)
    requires AtRoot(g, s, next, active, base)
    ensures forall x, y :: x in s.stack[base..] && Reach(g, x, y) ==> y in s.stack[base..] || s.Finished(y)
  {
    TopIsClosed(g, s, next, active, base);
    var inside := set x | x in s.index && (s.Finished(x) || x in s.stack[base..]);
    forall x | x in s.stack[base..] ensures x in inside {
      assert x in s.stack;
    }
    assert Closed(g, inside);
    forall x, y | x in s.stack[base..] && Reach(g, x, y) ensures y in s.stack[base..] || s.Finished(y) {
      ReachStaysInside(g, inside, x, y);
    }
  }

  lemma FinishedStaysFinished(g: Graph, s: Search, active: set<Node>, x: Node, y: Node)
    requires Colours(g, s, active)
    requires s.Finished(x) && Reach(g, x, y)
    ensures s.Finished(y)
  {
    var finished := set z | z in s.index && s.Finished(z);
    assert Closed(g, finished);
    ReachStaysInside(g, finished, x, y);
  }

  lemma TopReturnsToRoot(g: Graph, s: Search, next: nat, active: set<Node>, base: nat, x: Node)
    requires AtRoot(g, s, next, active, base)
    requires x in s.stack[base..]
    ensures Reach(g, x, s.stack[base]) && Reach(g, s.stack[base], x)
  {
    var i :| base <= i < |s.stack| && s.stack[i] == x;
    assert CanReturn(g, s, active + {s.stack[base]}, i);
    var k :| Returns(g, s, active + {s.stack[base]}, i, k);
    TopLeadsToFinished(g, s, next, active, base);
    BelowIsSmaller(g, s, next, base);
    StackSplits(g, s, next, base);
    assert s.stack[k] in s.stack[base..];
    assert s.stack[k] == s.stack[base];
  }

  /** The popped nodes are exactly one strongly connected component. */
  lemma TopIsScc(g: Graph, s: Search, next: nat, active: set<Node>, base: nat, c: seq<Node>)
    requires AtRoot(g, s, next, active, base)
    requires forall x :: x in c <==> x in s.stack[base..]
    ensures IsScc(g, c)
  {
    var root := s.stack[base];
    assert s.stack[base..][0] == root;
    assert root in c;
    assert forall x :: x in c ==> x in s.stack;
    forall x, y | x in c ensures y in c <==> Mutual(g, x, y) {
      TopReturnsToRoot(g, s, next, active, base, x);
      if y in c {
        TopReturnsToRoot(g, s, next, active, base, y);
        ReachTransitive(g, x, root, y);
        ReachTransitive(g, y, root, x);
      } else if Mutual(g, x, y) {
        TopLeadsToFinished(g, s, next, active, base);
        FinishedStaysFinished(g, s, active + {root}, y, x);
        assert false;
      }
    }
  }

  lemma InSomeExtends(cs: seq<seq<Node>>, c: seq<Node>, n: int, x: Node)
    requires 0 <= n <= |cs|
    ensures InSome(cs, n, x) <==> InSome(cs + [c], n, x)
    ensures InSome(cs + [c], |cs| + 1, x) <==> InSome(cs, |cs|, x) || x in c
  {
    var ds := cs + [c];
    forall k | 0 <= k < |cs| ensures ds[k] == cs[k] {}
    if InSome(cs, n, x) {
      var k :| 0 <= k < n && x in cs[k];
      assert x in ds[k];
    }
    if InSome(cs, |cs|, x) {
      var k :| 0 <= k < |cs| && x in cs[k];
      assert x in ds[k];
    }
    if x in c {
      assert x in ds[|cs|];
    }
    if InSome(ds, n, x) {
      var k :| 0 <= k < n && x in ds[k];
      assert x in cs[k];
    }
    if InSome(ds, |cs| + 1, x) && x !in c {
      var k :| 0 <= k < |cs| + 1 && x in ds[k];
      assert x in cs[k];
    }
  }

  lemma EmitComponent(g: Graph, cs: seq<seq<Node>>, c: seq<Node>)
    requires Emitted(g, cs)
    requires IsScc(g, c) && Distinct(c) && Ordered(c, CodeUnitsAtMost)
    requires forall x :: x in c ==> !InSome(cs, |cs|, x)
    requires forall x, y :: x in c && Reach(g, x, y) ==> y in c || InSome(cs, |cs|, y)
    ensures Emitted(g, cs + [c])
  {
    var ds := cs + [c];
    forall i, j, x | 0 <= i < j < |ds| && x in ds[i] ensures x !in ds[j] {
      if j == |cs| && x in c {
        assert x in cs[i];
        assert InSome(cs, |cs|, x);
        assert false;
      }
    }
    forall i, x, y | 0 <= i < |ds| && x in ds[i] && Reach(g, x, y) ensures InSome(ds, i + 1, y) {
      if i < |cs| {
        InSomeExtends(cs, c, i + 1, y);
      } else {
        InSomeExtends(cs, c, |cs|, y);
      }
    }
  }

  lemma PopColours(g: Graph, s: Search, next: nat, active: set<Node>, base: nat, t: Search)
    requires AtRoot(g, s, next, active, base)
    requires t.index == s.index && t.stack == s.stack[..base]
    ensures forall x :: t.Finished(x) <==> s.Finished(x) || x in s.stack[base..]
    ensures Colours(g, t, active)
  {
    BelowIsSmaller(g, s, next, base);
    StackSplits(g, s, next, base);
    TopIsClosed(g, s, next, active, base);
    forall x ensures t.Finished(x) <==> s.Finished(x) || x in s.stack[base..] {
      if x in s.stack {
        assert x in s.index;
      }
    }
    forall x, y | x in t.index && x !in active && y in Targets(g, x) ensures y in t.index {
      if x == s.stack[base] {
        var m :| 0 <= m < |Targets(g, x)| && Targets(g, x)[m] == y;
      }
    }
  }

  lemma PopComponents(g: Graph, s: Search, next: nat, active: set<Node>, base: nat, c: seq<Node>, t: Search)
    requires AtRoot(g, s, next, active, base)
    requires forall x :: x in c <==> x in s.stack[base..]
    requires Distinct(c) && Ordered(c, CodeUnitsAtMost)
    requires forall x :: t.Finished(x) <==> s.Finished(x) || x in s.stack[base..]
    requires t.components == s.components + [c]
    ensures Components(g, t)
  {
    TopIsScc(g, s, next, active, base, c);
    TopLeadsToFinished(g, s, next, active, base);
    forall x | x in c ensures !InSome(s.components, |s.components|, x) {
      assert x in s.stack;
    }
    EmitComponent(g, s.components, c);
    forall x ensures t.Finished(x) <==> InSome(t.components, |t.components|, x) {
      InSomeExtends(s.components, c, |s.components|, x);
    }
  }

  lemma PopComponent(g: Graph, s: Search, next: nat, active: set<Node>, base: nat, c: seq<Node>, t: Search)
    requires AtRoot(g, s, next, active, base)
    requires forall x :: x in c <==> x in s.stack[base..]
    requires Distinct(c) && Ordered(c, CodeUnitsAtMost)
    requires t == s.(stack := s.stack[..base], components := s.components + [c])
    ensures Inv(g, t, next, active)
  {
    PopColours(g, s, next, active, base, t);
    PopComponents(g, s, next, active, base, c, t);
    forall i | 0 <= i < |t.stack| ensures CanReturn(g, t, active, i) {
      assert CanReturn(g, s, active + {s.stack[base]}, i);
      var k :| Returns(g, s, active + {s.stack[base]}, i, k);
      assert s.index[s.stack[k]] < s.index[s.stack[base]];
      assert Returns(g, t, active, i, k);
    }
  }

  // -------------------------------------------------------------------- one target processed

  ghost predicate Keeps(a: seq<Node>, b: seq<Node>) {
    |a| <= |b| && b[..|a|] == a
  }

  lemma KeepsPrefix(a: seq<Node>, b: seq<Node>, n: nat)
    requires Keeps(a, b) && n <= |a|
    ensures b[..n] == a[..n]
  {
    assert b[..|a|][..n] == b[..n];
  }

  ghost predicate Extends(m: map<Node, nat>, n: map<Node, nat>) {
    forall x :: x in m ==> x in n && n[x] == m[x]
  }

  ghost predicate ExtendsBut(m: map<Node, nat>, n: map<Node, nat>, node: Node) {
    forall x :: x in m && x != node ==> x in n && n[x] == m[x]
  }

  lemma ExtendsOn(k: map<Node, nat>, m: map<Node, nat>, n: map<Node, nat>)
    requires Extends(k, m) && Extends(m, n)
    ensures Extends(k, n)
  {
  }

  lemma ExtendsButOn(k: map<Node, nat>, m: map<Node, nat>, n: map<Node, nat>, node: Node)
    requires ExtendsBut(k, m, node) && ExtendsBut(m, n, node)
    ensures ExtendsBut(k, n, node)
  {
  }

  lemma ExtendsAround(m: map<Node, nat>, node: Node, v: nat, m': map<Node, nat>, n: map<Node, nat>)
    requires node !in m && m' == m[node := v] && ExtendsBut(m', n, node)
    ensures Extends(m, n)
  {
  }

  lemma ExtendsUpdate(m: map<Node, nat>, n: map<Node, nat>, node: Node, v: nat, n': map<Node, nat>)
    requires ExtendsBut(m, n, node) && n' == n[node := v]
    ensures ExtendsBut(m, n', node)
    ensures node in n' && n'[node] == v && forall x :: x in n' <==> x in n || x == node
  {
  }

  lemma AllReach(g: Graph, active: set<Node>, node: Node, target: Node)
    requires forall z :: z in active ==> Reach(g, z, node)
    requires target in Targets(g, node)
    ensures forall z :: z in active + {node} ==> Reach(g, z, target)
  {
    ReachTarget(g, node, target);
    forall z | z in active ensures Reach(g, z, target) {
      ReachTransitive(g, z, node, target);
    }
  }

  lemma CrossStep(g: Graph, s: Search, t: Search, base: nat, m: nat, low: nat, low': nat)
    requires CrossBound(g, s, base, m, low) && low' <= low
    requires Extends(s.index, t.index) && Keeps(s.stack, t.stack)
    requires forall x :: x in s.stack ==> x in s.index
    requires m < |Targets(g, s.stack[base])|
    requires var y := Targets(g, s.stack[base])[m];
             y in t.index && (y in s.stack[..base] ==> low' <= t.index[y])
    requires |t.stack| > |s.stack| ==>
               CrossBound(g, t, |s.stack|, |Targets(g, t.stack[|s.stack|])|, low')
    ensures CrossBound(g, t, base, m + 1, low')
  {
    var top := |s.stack|;
    assert t.stack[..base] == s.stack[..base];
    assert t.stack[..top] == s.stack;
    forall y | y in t.stack[..base] ensures y in s.index && t.index[y] == s.index[y] && y in t.stack[..top] {
      var h :| 0 <= h < base && t.stack[..base][h] == y;
      assert s.stack[h] == y;
    }
    forall j, y | Crosses(g, t, base, j, y)
      ensures low' <= t.index[y]
    {
      if j < top {
        assert t.stack[j] == s.stack[j];
        assert Crosses(g, s, base, j, y);
      } else if j > top {
        assert Crosses(g, t, top, j, y);
      } else {
        var k :| 0 <= k < |Targets(g, t.stack[j])| && Targets(g, t.stack[j])[k] == y;
      }
    }
  }

  lemma WitnessStep(g: Graph, s: Search, t: Search, x: Node, low: nat)
    requires LowWitness(g, s, x, low)
    requires Extends(s.index, t.index) && Keeps(s.stack, t.stack)
    ensures LowWitness(g, t, x, low)
  {
    var y :| IsWitness(g, s, x, low, y);
    assert y in t.stack;
    assert IsWitness(g, t, x, low, y);
  }

  lemma WitnessFromTarget(g: Graph, s: Search, x: Node, y: Node, low: nat)
    requires y in Targets(g, x) && LowWitness(g, s, y, low)
    requires x in s.index && low <= s.index[x]
    ensures LowWitness(g, s, x, low)
  {
    var z :| IsWitness(g, s, y, low, z);
    ReachTarget(g, x, y);
    ReachTransitive(g, x, y, z);
    assert IsWitness(g, s, x, low, z);
  }

  /** What a finished `visit(node)` leaves, its node having been pushed at `base`: either its
      component is out, or it waits on the stack for a running ancestor with a smaller index. */
  ghost predicate Visited(g: Graph, s: Search, node: Node, base: nat, low: nat) {
    && node in s.index
    && if |s.stack| == base then low == s.index[node]
       else
         && |s.stack| > base && s.stack[base] == node
         && low < s.index[node]
         && LowWitness(g, s, node, low)
         && CrossBound(g, s, base, |Targets(g, node)|, low)
  }

  /** The loop state of `visit(node)` after `m` targets. */
  ghost predicate Visiting(g: Graph, s: Search, node: Node, base: nat, m: nat, low: nat) {
    && base < |s.stack| && s.stack[base] == node
    && LowWitness(g, s, node, low)
    && CrossBound(g, s, base, m, low)
  }

  lemma AfterVisit(g: Graph, s: Search, t: Search, node: Node, target: Node, base: nat, m: nat, low: nat, low': nat)
    requires Visiting(g, s, node, base, m, low)
    requires m < |Targets(g, node)| && target == Targets(g, node)[m]
    requires forall x :: x in s.stack ==> x in s.index
    requires Extends(s.index, t.index) && Keeps(s.stack, t.stack)
    requires target !in s.index && Visited(g, t, target, |s.stack|, low')
    requires s.index[node] < t.index[target]
    ensures Visiting(g, t, node, base, m + 1, Min(low, low'))
  {
    assert target !in s.stack[..base];
    CrossStep(g, s, t, base, m, low, Min(low, low'));
    WitnessStep(g, s, t, node, low);
    if low' < low {
      WitnessFromTarget(g, t, node, target, low');
    }
  }

  lemma AfterSeen(g: Graph, s: Search, node: Node, target: Node, base: nat, m: nat, low: nat, low': nat)
    requires Visiting(g, s, node, base, m, low)
    requires m < |Targets(g, node)| && target == Targets(g, node)[m]
    requires forall x :: x in s.stack ==> x in s.index
    requires target in s.index
    requires low' == if target in s.stack then Min(low, s.index[target]) else low
    ensures Visiting(g, s, node, base, m + 1, low')
  {
    CrossStep(g, s, s, base, m, low, low');
    if low' < low {
      ReachSelf(g, target);
      assert IsWitness(g, s, target, low', target);
      WitnessFromTarget(g, s, node, target, low');
    }
  }

  // ------------------------------------------------------------------------------ the search

  class SccSearch {
    const input: Graph
    var nextIndex: nat
    var indexes: map<Node, nat>
    var lowLinks: map<Node, nat>
    var stack: seq<Node>
    var onStack: set<Node>
    var components: seq<seq<Node>>

    constructor (g: Graph)
      ensures input == g && Valid({}) && indexes == map[] && components == []
    {
      input := g;
      nextIndex, indexes, lowLinks := 0, map[], map[];
      stack, onStack, components := [], {}, [];
    }

    ghost function State(): Search
      reads this
    {
      Search(indexes, stack, components)
    }

    ghost predicate Valid(active: set<Node>)
      reads this
    {
      && Inv(input, State(), nextIndex, active)
      && (forall x :: x in lowLinks <==> x in indexes)
      && forall x :: x in onStack <==> x in stack
    }

    /** The loop over all nodes; only unvisited ones start a search. */
    method VisitAll(nodes: seq<Node>)
      requires Valid({})
      requires forall k :: 0 <= k < |nodes| ==> nodes[k] in AllNodes(input)
      modifies this
      ensures Valid({})
      ensures forall k :: 0 <= k < |nodes| ==> nodes[k] in indexes
    {
      for m := 0 to |nodes|
        invariant Valid({})
        invariant forall k :: 0 <= k < m ==> nodes[k] in indexes
      {
        ghost var before := indexes;
        if nodes[m] !in indexes {
          Visit(nodes[m], {});
        }
        assert Extends(before, indexes);
      }
    }

    method Visit(node: Node, ghost active: set<Node>)
      requires Valid(active)
      requires node in AllNodes(input) && node !in indexes
      requires forall z :: z in active ==> Reach(input, z, node)
      modifies this
      ensures Valid(active)
      ensures Extends(old(indexes), indexes) && Extends(old(lowLinks), lowLinks)
      ensures Keeps(old(stack), stack) && node in lowLinks
      ensures Visited(input, State(), node, |old(stack)|, lowLinks[node])
      ensures indexes[node] == old(nextIndex)
      decreases AllNodes(input) - indexes.Keys, 0
    {
      ghost var base := |stack|;
      ghost var below := stack;
      assert forall z :: z in active ==> z in below;
      assert node !in lowLinks;
      Enter(node, active);
      assert stack[..base] == below;
      ghost var entered, enteredLow := indexes, lowLinks;
      FollowAll(node, base, active);
      ExtendsAround(old(lowLinks), node, old(nextIndex), enteredLow, lowLinks);
      ExtendsAround(old(indexes), node, old(nextIndex), entered, indexes);
      Leave(node, base, active);
    }

    /** The loop over the targets of a node. */
    method FollowAll(node: Node, ghost base: nat, ghost active: set<Node>)
      requires Valid(active + {node}) && node in lowLinks
      requires Visiting(input, State(), node, base, 0, lowLinks[node])
      requires forall z :: z in active ==> Reach(input, z, node)
      modifies this
      ensures Valid(active + {node}) && node in lowLinks
      ensures Visiting(input, State(), node, base, |Targets(input, node)|, lowLinks[node])
      ensures Extends(old(indexes), indexes)
      ensures ExtendsBut(old(lowLinks), lowLinks, node)
      ensures base < |old(stack)| && stack[..base] == old(stack)[..base]
      decreases AllNodes(input) - indexes.Keys, 2
    {
      var targets := Targets(input, node);
      for m := 0 to |targets|
        invariant Valid(active + {node}) && node in lowLinks
        invariant Visiting(input, State(), node, base, m, lowLinks[node])
        invariant Extends(old(indexes), indexes)
        invariant ExtendsBut(old(lowLinks), lowLinks, node)
        invariant base < |old(stack)| && stack[..base] == old(stack)[..base]
      {
        ghost var seen, links := indexes, lowLinks;
        Follow(node, targets[m], base, m, active);
        ExtendsOn(old(indexes), seen, indexes);
        ExtendsButOn(old(lowLinks), links, lowLinks, node);
      }
    }

    method Follow(node: Node, target: Node, ghost base: nat, ghost m: nat, ghost active: set<Node>)
      requires Valid(active + {node}) && node in lowLinks
      requires Visiting(input, State(), node, base, m, lowLinks[node])
      requires m < |Targets(input, node)| && target == Targets(input, node)[m]
      requires forall z :: z in active ==> Reach(input, z, node)
      modifies this
      ensures Valid(active + {node}) && node in lowLinks
      ensures Visiting(input, State(), node, base, m + 1, lowLinks[node])
      ensures Extends(old(indexes), indexes)
      ensures ExtendsBut(old(lowLinks), lowLinks, node)
      ensures base < |old(stack)| && stack[..base] == old(stack)[..base]
      decreases AllNodes(input) - indexes.Keys, 1, 1
    {
      if target !in indexes {
        FollowNew(node, target, base, m, active);
        KeepsPrefix(old(stack), stack, base);
      } else {
        FollowSeen(node, target, base, m, active);
      }
    }

    method Enter(node: Node, ghost active: set<Node>)
      requires Valid(active)
      requires node in AllNodes(input) && node !in indexes
      requires forall z :: z in active ==> Reach(input, z, node)
      modifies this
      ensures Valid(active + {node}) && node in lowLinks
      ensures Visiting(input, State(), node, |old(stack)|, 0, lowLinks[node])
      ensures indexes == old(indexes)[node := old(nextIndex)]
      ensures lowLinks == old(lowLinks)[node := old(nextIndex)]
      ensures stack == old(stack) + [node]
    {
      Push(input, State(), nextIndex, active, node,
           State().(index := indexes[node := nextIndex], stack := stack + [node]));
      indexes := indexes[node := nextIndex];
      lowLinks := lowLinks[node := nextIndex];
      nextIndex := nextIndex + 1;
      stack := stack + [node];
      onStack := onStack + {node};
      ReachSelf(input, node);
      assert IsWitness(input, State(), node, lowLinks[node], node);
    }

    /** A target that has no index yet is visited. */
    method FollowNew(node: Node, target: Node, ghost base: nat, ghost m: nat, ghost active: set<Node>)
      requires Valid(active + {node}) && node in lowLinks
      requires Visiting(input, State(), node, base, m, lowLinks[node])
      requires m < |Targets(input, node)| && target == Targets(input, node)[m]
      requires forall z :: z in active ==> Reach(input, z, node)
      requires target !in indexes
      modifies this
      ensures Valid(active + {node}) && node in lowLinks
      ensures Visiting(input, State(), node, base, m + 1, lowLinks[node])
      ensures Extends(old(indexes), indexes)
      ensures ExtendsBut(old(lowLinks), lowLinks, node)
      ensures Keeps(old(stack), stack)
      decreases AllNodes(input) - indexes.Keys, 1, 0
    {
      TargetsAreNodes(input, node, target);
      ghost var before := State();
      ghost var low := lowLinks[node];
      AllReach(input, active, node, target);
      Visit(target, active + {node});
      ghost var links, after := lowLinks, State();
      AfterVisit(input, before, after, node, target, base, m, low, links[target]);
      Lower(node, target, active + {node});
      assert lowLinks[node] == Min(low, links[target]);
      ExtendsUpdate(old(lowLinks), links, node, lowLinks[node], lowLinks);
    }

    /** The low link of the node takes in that of the visited target. */
    method Lower(node: Node, target: Node, ghost active: set<Node>)
      requires Valid(active) && node in lowLinks && target in lowLinks
      modifies this`lowLinks
      ensures Valid(active)
      ensures lowLinks == old(lowLinks)[node := Min(old(lowLinks)[node], old(lowLinks)[target])]
      ensures State() == old(State())
    {
      lowLinks := lowLinks[node := Min(lowLinks[node], lowLinks[target])];
    }

    /** A target still on the stack: its index counts. */
    method FollowSeen(node: Node, target: Node, ghost base: nat, ghost m: nat, ghost active: set<Node>)
      requires Valid(active + {node}) && node in lowLinks
      requires Visiting(input, State(), node, base, m, lowLinks[node])
      requires m < |Targets(input, node)| && target == Targets(input, node)[m]
      requires target in indexes
      modifies this`lowLinks
      ensures Valid(active + {node}) && node in lowLinks
      ensures Visiting(input, State(), node, base, m + 1, lowLinks[node])
      ensures ExtendsBut(old(lowLinks), lowLinks, node)
    {
      ghost var low := lowLinks[node];
      if target in onStack {
        lowLinks := lowLinks[node := Min(lowLinks[node], indexes[target])];
      }
      AfterSeen(input, State(), node, target, base, m, low, lowLinks[node]);
    }

    method Leave(node: Node, ghost base: nat, ghost active: set<Node>)
      requires Valid(active + {node}) && node in lowLinks
      requires Visiting(input, State(), node, base, |Targets(input, node)|, lowLinks[node])
      requires forall z :: z in active ==> z in stack[..base]
      modifies this
      ensures Valid(active) && node in lowLinks
      ensures Visited(input, State(), node, base, lowLinks[node])
      ensures indexes == old(indexes) && lowLinks == old(lowLinks)
      ensures |stack| >= base && stack[..base] == old(stack)[..base]
    {
      if lowLinks[node] != indexes[node] {
        Blacken(input, State(), nextIndex, active, node, lowLinks[node]);
        return;
      }
      ghost var full := State();
      var component := PopUntil(node, base);
      SortDistinct(component, CodeUnitsAtMost);
      CodeUnitsAtMostIsTotal();
      SortOrdered(component, CodeUnitsAtMost);
      components := components + [Sort(component, CodeUnitsAtMost)];
      PopComponent(input, full, nextIndex, active, base, components[|components| - 1], State());
    }

    /** The loop that takes a component off the stack. */
    method PopUntil(node: Node, ghost base: nat) returns (component: seq<Node>)
      requires base < |stack| && stack[base] == node
      requires Distinct(stack)
      requires forall x :: x in onStack <==> x in stack
      modifies this`stack, this`onStack
      ensures stack == old(stack)[..base]
      ensures forall x :: x in onStack <==> x in stack
      ensures Distinct(component)
      ensures forall x :: x in component <==> x in old(stack)[base..]
    {
      ghost var full := stack;
      component := [];
      while true
        invariant base < |stack| && stack == full[..|stack|]
        invariant forall x :: x in onStack <==> x in stack
        invariant forall x :: x in component <==> x in full[|stack|..]
        invariant Distinct(component)
        decreases |stack|
      {
        var current := stack[|stack| - 1];
        ghost var rest := full[|stack|..];
        assert full[|stack| - 1..] == [current] + rest;
        assert current !in rest;
        stack := stack[..|stack| - 1];
        onStack := onStack - {current};
        component := component + [current];
        if current == node {
          break;
        }
      }
    }
  }

  // -------------------------------------------------------------------------- the whole graph

  /** All keys and all targets, once each and sorted. */
  method SortedNodes(g: Graph) returns (nodes: seq<Node>)
    ensures Distinct(nodes) && Ordered(nodes, CodeUnitsAtMost)
    ensures forall x :: x in nodes <==> x in AllNodes(g)
  {
    var rest := AllNodes(g);
    var list: seq<Node> := [];
    while rest != {}
      invariant Distinct(list)
      invariant forall x :: x in AllNodes(g) <==> x in list || x in rest
      invariant forall x :: x in list ==> x !in rest
    {
      var x :| x in rest;
      list := list + [x];
      rest := rest - {x};
    }
    SortDistinct(list, CodeUnitsAtMost);
    CodeUnitsAtMostIsTotal();
    SortOrdered(list, CodeUnitsAtMost);
    nodes := Sort(list, CodeUnitsAtMost);
  }

  predicate LongerFirst(a: seq<Node>, b: seq<Node>) {
    |a| >= |b|
  }

  /** Every node is in exactly one component, and components are the mutual-reachability classes. */
  ghost predicate Partition(g: Graph, cs: seq<seq<Node>>) {
    && (forall i :: 0 <= i < |cs| ==> IsScc(g, cs[i]) && Distinct(cs[i]) && Ordered(cs[i], CodeUnitsAtMost))
    && (forall i, j, x {:trigger x in cs[i], x in cs[j]} :: 0 <= i < j < |cs| && x in cs[i] ==> x !in cs[j])
    && (forall x :: x in AllNodes(g) <==> InSome(cs, |cs|, x))
  }

  lemma ComponentsDiffer(g: Graph, cs: seq<seq<Node>>)
    requires Emitted(g, cs)
    ensures Distinct(cs)
  {
    forall i, j | 0 <= i < j < |cs| ensures cs[i] != cs[j] {
      assert cs[i] != [] && cs[i][0] in cs[i];
    }
  }

  /** Reordering a list of disjoint components keeps them disjoint. */
  lemma ReorderDisjoint(g: Graph, cs: seq<seq<Node>>, ds: seq<seq<Node>>)
    requires Emitted(g, cs) && Distinct(ds) && forall d :: d in ds ==> d in cs
    ensures forall i, j, x {:trigger x in ds[i], x in ds[j]} :: 0 <= i < j < |ds| && x in ds[i] ==> x !in ds[j]
  {
    forall i, j, x | 0 <= i < j < |ds| && x in ds[i] ensures x !in ds[j] {
      assert ds[i] in cs && ds[j] in cs && ds[i] != ds[j];
      var k :| 0 <= k < |cs| && cs[k] == ds[i];
      var l :| 0 <= l < |cs| && cs[l] == ds[j];
      assert k < l || l < k;
    }
  }

  lemma ReorderCovers(cs: seq<seq<Node>>, ds: seq<seq<Node>>, x: Node)
    requires forall d :: d in ds <==> d in cs
    requires InSome(cs, |cs|, x)
    ensures InSome(ds, |ds|, x)
  {
    var k :| 0 <= k < |cs| && x in cs[k];
    assert cs[k] in ds;
    var i :| 0 <= i < |ds| && ds[i] == cs[k];
  }

  lemma SortedComponents(g: Graph, cs: seq<seq<Node>>)
    requires Emitted(g, cs)
    requires forall x :: x in AllNodes(g) <==> InSome(cs, |cs|, x)
    ensures Partition(g, Sort(cs, LongerFirst)) && Ordered(Sort(cs, LongerFirst), LongerFirst)
  {
    var ds := Sort(cs, LongerFirst);
    ComponentsDiffer(g, cs);
    SortDistinct(cs, LongerFirst);
    SortOrdered(cs, LongerFirst);
    ReorderDisjoint(g, cs, ds);
    forall i | 0 <= i < |ds| ensures IsScc(g, ds[i]) && Distinct(ds[i]) && Ordered(ds[i], CodeUnitsAtMost) {
      assert ds[i] in cs;
    }
    forall x ensures x in AllNodes(g) <==> InSome(ds, |ds|, x) {
      if InSome(cs, |cs|, x) {
        ReorderCovers(cs, ds, x);
      }
      if InSome(ds, |ds|, x) {
        ReorderCovers(ds, cs, x);
      }
    }
  }

  lemma NobodyReturns(g: Graph, s: Search, i: int)
    ensures !CanReturn(g, s, {}, i)
  {
  }

  /** With no call running the stack is empty, so what was visited is what was emitted. */
  lemma IdleMeansEmpty(g: Graph, s: Search, next: nat)
    requires Inv(g, s, next, {})
    ensures s.stack == []
    ensures forall x :: x in s.index <==> InSome(s.components, |s.components|, x)
  {
    NobodyReturns(g, s, 0);
    forall x ensures x in s.index <==> InSome(s.components, |s.components|, x) {
      assert s.Finished(x) <==> x in s.index;
    }
  }

  lemma SearchIsComplete(g: Graph, s: Search, next: nat, nodes: seq<Node>)
    requires Inv(g, s, next, {})
    requires forall x :: x in nodes <==> x in AllNodes(g)
    requires forall k :: 0 <= k < |nodes| ==> nodes[k] in s.index
    ensures Emitted(g, s.components)
    ensures Partition(g, Sort(s.components, LongerFirst)) && Ordered(Sort(s.components, LongerFirst), LongerFirst)
  {
    IdleMeansEmpty(g, s, next);
    forall x ensures x in AllNodes(g) <==> x in s.index {
      if x in AllNodes(g) {
        assert x in nodes;
      }
    }
    SortedComponents(g, s.components);
  }

  /** Main result. `emitted` is the order in which components leave the search: each only after
      everything it reaches. The returned list is its stable sort, longest first. */
  method StronglyConnectedComponents(input: Graph) returns (result: seq<seq<Node>>, ghost emitted: seq<seq<Node>>)
    ensures Partition(input, result)
    ensures Ordered(result, LongerFirst)
    ensures Emitted(input, emitted) && result == Sort(emitted, LongerFirst)
  {
    var search := new SccSearch(input);
    var nodes := SortedNodes(input);
    search.VisitAll(nodes);
    SearchIsComplete(input, search.State(), search.nextIndex, nodes);
    emitted := search.components;
    result := Sort(search.components, LongerFirst);
  }

  // ------------------------------------------------------------------------------ the ratchet

  const MAX_RUNTIME_DOMAIN_SCC := 23

  ghost predicate MutualSet(g: Graph, s: set<Node>) {
    s <= AllNodes(g) && forall x, y :: x in s && y in s ==> Mutual(g, x, y)
  }

  function ToSet(s: seq<Node>): set<Node> {
    set x | x in s
  }

  lemma {:induction false} DistinctSize(s: seq<Node>)
    requires Distinct(s)
    ensures |ToSet(s)| == |s|
  {
    if s == [] {
      assert ToSet(s) == {};
    } else {
      DistinctSize(s[1..]);
      assert ToSet(s) == {s[0]} + ToSet(s[1..]);
      assert s[0] !in ToSet(s[1..]);
    }
  }

  lemma SubsetSize(s: set<Node>, t: set<Node>)
    requires s <= t
    ensures |s| <= |t|
  {
    assert t == s + (t - s);
  }

  lemma MutualSetFits(g: Graph, cs: seq<seq<Node>>, s: set<Node>)
    requires Partition(g, cs) && Ordered(cs, LongerFirst)
    requires MutualSet(g, s) && s != {}
    ensures cs != [] && |s| <= |cs[0]|
  {
    var x :| x in s;
    assert InSome(cs, |cs|, x);
    var k :| 0 <= k < |cs| && x in cs[k];
    forall y | y in s ensures y in ToSet(cs[k]) {
      assert Mutual(g, x, y);
    }
    SubsetSize(s, ToSet(cs[k]));
    DistinctSize(cs[k]);
  }

  lemma ComponentIsMutual(g: Graph, cs: seq<seq<Node>>, k: nat)
    requires Partition(g, cs) && k < |cs|
    ensures MutualSet(g, ToSet(cs[k])) && |ToSet(cs[k])| == |cs[k]|
  {
    DistinctSize(cs[k]);
    forall x | x in cs[k] ensures x in AllNodes(g) {
      assert InSome(cs, |cs|, x);
    }
  }

  /** The largest component, compared with the limit: the gate opens exactly when no set of more
      than 23 domains import each other in a cycle. */
  method RatchetPasses(g: Graph) returns (passes: bool, largest: seq<Node>)
    ensures passes <==> forall s :: MutualSet(g, s) ==> |s| <= 23
    ensures MutualSet(g, ToSet(largest)) && forall s :: MutualSet(g, s) ==> |s| <= |largest|
  {
    var components, _ := StronglyConnectedComponents(g);
    largest := if components == [] then [] else components[0];
    passes := |largest| <= MAX_RUNTIME_DOMAIN_SCC;
    forall s | MutualSet(g, s) ensures |s| <= |largest| {
      if s != {} {
        MutualSetFits(g, components, s);
      }
    }
    if components != [] {
      ComponentIsMutual(g, components, 0);
    }
  }
}
