/** Laws of sequences that several modules need. */
module Sequences {

  lemma Regroup<T>(a: seq<T>, b: seq<T>, c: seq<T>)
    ensures (a + b) + c == a + (b + c)
  {
  }

  function Reversed<T>(s: seq<T>): seq<T> {
    if s == [] then [] else Reversed(s[1..]) + [s[0]]
  }

  lemma {:induction false} ReversedAt<T>(s: seq<T>)
    ensures |Reversed(s)| == |s|
    ensures forall k :: 0 <= k < |s| ==> Reversed(s)[k] == s[|s| - 1 - k]
  {
    if s != [] {
      ReversedAt(s[1..]);
    }
  }

  lemma {:induction false} ReversedMembers<T>(s: seq<T>, x: T)
    ensures x in Reversed(s) <==> x in s
  {
    if s != [] {
      ReversedMembers(s[1..], x);
      assert s == [s[0]] + s[1..];
    }
  }

  lemma ReversedTwice<T>(s: seq<T>)
    ensures Reversed(Reversed(s)) == s
  {
    ReversedAt(s);
    ReversedAt(Reversed(s));
  }

  lemma ReversedTail<T>(s: seq<T>)
    requires s != []
    ensures Reversed(s)[..|Reversed(s)| - 1] == Reversed(s[1..]) && Reversed(s)[|Reversed(s)| - 1] == s[0]
  {
  }

  lemma ReversedPrefix<T>(s: seq<T>, n: nat)
    requires n <= |s|
    ensures |Reversed(s)| == |s| && Reversed(s)[..|s| - n] == Reversed(s[n..])
    ensures n < |s| ==> Reversed(s)[|s| - n - 1] == s[n]
  {
    ReversedAt(s);
    ReversedAt(s[n..]);
  }

  // ------------------------------------------------------------------- what a filter leaves

  ghost predicate Increasing(places: seq<nat>) {
    forall i, j :: 0 <= i < j < |places| ==> places[i] < places[j]
  }

  ghost predicate PickedAt<U>(n: nat, keep: nat -> bool, says: (nat, U) -> bool, result: seq<U>, places: seq<nat>) {
    && Increasing(places)
    && (forall i :: 0 <= i < |places| ==> places[i] < n && keep(places[i]))
    && (forall k: nat {:trigger k in places} :: k < n && keep(k) ==> k in places)
    && |result| == |places| && forall i :: 0 <= i < |places| ==> says(places[i], result[i])
  }

  /** One entry for each place below `n` that is kept, in the order of the places, and nothing else. */
  ghost predicate Picks<U>(n: nat, keep: nat -> bool, says: (nat, U) -> bool, result: seq<U>) {
    exists places :: PickedAt(n, keep, says, result, places)
  }

  lemma PicksNothing<U>(keep: nat -> bool, says: (nat, U) -> bool)
    ensures Picks(0, keep, says, [])
  {
    assert PickedAt(0, keep, says, [], []);
  }

  lemma PicksMore<U>(n: nat, keep: nat -> bool, says: (nat, U) -> bool, result: seq<U>, x: U)
    requires Picks(n, keep, says, result) && keep(n) && says(n, x)
    ensures Picks(n + 1, keep, says, result + [x])
  {
    var places :| PickedAt(n, keep, says, result, places);
    var more, longer := places + [n], result + [x];
    assert more[|places|] == n && longer[|places|] == x;
    forall i | 0 <= i < |more| ensures more[i] < n + 1 && keep(more[i]) && says(more[i], longer[i]) {
      assert i < |places| ==> more[i] == places[i] && longer[i] == result[i];
    }
    forall k: nat | k < n + 1 && keep(k) ensures k in more {
      assert k < n ==> k in places;
    }
    assert Increasing(more);
    assert PickedAt(n + 1, keep, says, longer, more);
  }

  lemma PicksSame<U>(n: nat, keep: nat -> bool, says: (nat, U) -> bool, result: seq<U>)
    requires Picks(n, keep, says, result) && !keep(n)
    ensures Picks(n + 1, keep, says, result)
  {
    var places :| PickedAt(n, keep, says, result, places);
    assert PickedAt(n + 1, keep, says, result, places);
  }

  lemma LastIsGreatest(a: seq<nat>, x: nat)
    requires Increasing(a) && x in a
    ensures x <= a[|a| - 1] && (x in a[..|a| - 1] <==> x < a[|a| - 1])
  {
    var i :| 0 <= i < |a| && a[i] == x;
    if i < |a| - 1 {
      assert a[..|a| - 1][i] == x;
    }
  }

  lemma {:induction false} IncreasingIsUnique(a: seq<nat>, b: seq<nat>)
    requires Increasing(a) && Increasing(b) && forall x :: x in a <==> x in b
    ensures a == b
  {
    assert b != [] ==> b[0] in b;
    if a != [] {
      var m, n := |a| - 1, |b| - 1;
      assert a[m] in b;
      LastIsGreatest(b, a[m]);
      assert b[n] in a;
      LastIsGreatest(a, b[n]);
      forall x ensures x in a[..m] <==> x in b[..n] {
        if x in a { LastIsGreatest(a, x); LastIsGreatest(b, x); }
        assert x in a[..m] ==> x in a;
        assert x in b[..n] ==> x in b;
      }
      IncreasingIsUnique(a[..m], b[..n]);
      assert a == a[..m] + [a[m]] && b == b[..n] + [b[n]];
    }
  }

  /** Where each place determines its entry, the result is determined. */
  lemma PicksAreUnique<U>(n: nat, keep: nat -> bool, says: (nat, U) -> bool, a: seq<U>, b: seq<U>)
    requires Picks(n, keep, says, a) && Picks(n, keep, says, b)
    requires forall k, x, y {:trigger says(k, x), says(k, y)} :: says(k, x) && says(k, y) ==> x == y
    ensures a == b
  {
    var places :| PickedAt(n, keep, says, a, places);
    var others :| PickedAt(n, keep, says, b, others);
    forall x ensures x in places <==> x in others {
    }
    IncreasingIsUnique(places, others);
    forall i | 0 <= i < |a| ensures a[i] == b[i] {
      assert says(places[i], a[i]) && says(others[i], b[i]);
    }
  }
}
