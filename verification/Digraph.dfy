/** Directed graphs as the boundary check stores them: a domain maps to its import targets. */
module Digraph {
  import opened Sorting

  type Node = string
  type Graph = map<Node, seq<Node>>

  /** The targets of a node; none for one that is no key. */
  function Targets(g: Graph, n: Node): seq<Node> {
    if n in g then g[n] else []
  }

  function AllNodes(g: Graph): set<Node> {
    g.Keys + set k, t | k in g && t in g[k] :: t
  }

  lemma TargetsAreNodes(g: Graph, x: Node, y: Node)
    requires y in Targets(g, x)
    ensures x in AllNodes(g) && y in AllNodes(g)
  {
    assert x in g;
  }

  ghost predicate IsPath(g: Graph, p: seq<Node>) {
    && p != []
    && forall i :: 0 < i < |p| ==> p[i] in Targets(g, p[i - 1])
  }

  ghost predicate Joins(g: Graph, p: seq<Node>, x: Node, y: Node) {
    IsPath(g, p) && p[0] == x && p[|p| - 1] == y
  }

  ghost predicate Reach(g: Graph, x: Node, y: Node) {
    exists p :: Joins(g, p, x, y)
  }

  lemma ReachSelf(g: Graph, x: Node)
    ensures Reach(g, x, x)
  {
    assert Joins(g, [x], x, x);
  }

  lemma ReachTarget(g: Graph, x: Node, y: Node)
    requires y in Targets(g, x)
    ensures Reach(g, x, y)
  {
    assert Joins(g, [x, y], x, y);
  }

  lemma ReachTransitive(g: Graph, x: Node, y: Node, z: Node)
    requires Reach(g, x, y) && Reach(g, y, z)
    ensures Reach(g, x, z)
  {
    var p :| Joins(g, p, x, y);
    var q :| Joins(g, q, y, z);
    var r := p + q[1..];
    forall i | 0 < i < |r| ensures r[i] in Targets(g, r[i - 1]) {
      if i >= |p| {
        assert r[i] == q[i - |p| + 1] && r[i - 1] == q[i - |p|];
      }
    }
    assert Joins(g, r, x, z);
  }

  ghost predicate Closed(g: Graph, s: set<Node>) {
    forall x, y {:trigger y in Targets(g, x)} :: x in s && y in Targets(g, x) ==> y in s
  }

  lemma {:induction false} PathStaysInside(g: Graph, s: set<Node>, p: seq<Node>)
    requires Closed(g, s) && IsPath(g, p) && p[0] in s
    ensures p[|p| - 1] in s
  {
    if |p| > 1 {
      var q := p[..|p| - 1];
      assert q[0] == p[0];
      PathStaysInside(g, s, q);
      assert p[|p| - 1] in Targets(g, q[|q| - 1]);
    }
  }

  lemma ReachStaysInside(g: Graph, s: set<Node>, x: Node, y: Node)
    requires Closed(g, s) && x in s && Reach(g, x, y)
    ensures y in s
  {
    var p :| Joins(g, p, x, y);
    PathStaysInside(g, s, p);
  }

  ghost predicate Mutual(g: Graph, x: Node, y: Node) {
    Reach(g, x, y) && Reach(g, y, x)
  }

  /** A maximal set of mutually reachable nodes. */
  ghost predicate IsScc(g: Graph, c: seq<Node>) {
    && c != []
    && forall x, y :: x in c ==> (y in c <==> Mutual(g, x, y))
  }
}
