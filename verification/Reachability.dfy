/** Reachability in a finite graph, given as the list of edges out of a node. */
module Reachability {

  type Graph<!T> = map<T, seq<T>>

  function Out<T>(g: Graph<T>, n: T): seq<T> {
    if n in g then g[n] else []
  }

  ghost predicate Path<T>(g: Graph<T>, path: seq<T>) {
    path != [] && forall i :: 0 <= i < |path| - 1 ==> path[i + 1] in Out(g, path[i])
  }

  ghost predicate Reachable<T(!new)>(g: Graph<T>, from: T, to: T) {
    exists path: seq<T> :: Path(g, path) && path[0] == from && path[|path| - 1] == to
  }

  ghost predicate ClosedUnder<T>(g: Graph<T>, nodes: set<T>) {
    forall n, m :: n in nodes && m in Out(g, n) ==> m in nodes
  }

  /** Everything that can be met from the start. */
  function Universe<T>(g: Graph<T>, start: T): set<T> {
    {start} + set n, m | n in g && m in g[n] :: m
  }

  lemma UniverseClosed<T>(g: Graph<T>, start: T)
    ensures ClosedUnder(g, Universe(g, start))
  {
  }

  lemma ReachableSelf<T(!new)>(g: Graph<T>, n: T)
    ensures Reachable(g, n, n)
  {
    assert Path(g, [n]) && [n][0] == n;
  }

  lemma ReachableStep<T(!new)>(g: Graph<T>, from: T, n: T, m: T)
    requires Reachable(g, from, n) && m in Out(g, n)
    ensures Reachable(g, from, m)
  {
    var path :| Path(g, path) && path[0] == from && path[|path| - 1] == n;
    var longer := path + [m];
    assert forall i :: 0 <= i < |path| ==> longer[i] == path[i];
    assert Path(g, longer) && longer[0] == from && longer[|longer| - 1] == m;
  }

  lemma ReachableTrans<T(!new)>(g: Graph<T>, a: T, b: T, c: T)
    requires Reachable(g, a, b) && Reachable(g, b, c)
    ensures Reachable(g, a, c)
  {
    var p :| Path(g, p) && p[0] == a && p[|p| - 1] == b;
    var q :| Path(g, q) && q[0] == b && q[|q| - 1] == c;
    var path := p + q[1..];
    forall i | 0 <= i < |path| - 1 ensures path[i + 1] in Out(g, path[i]) {
      if i < |p| - 1 {
        assert p[i + 1] in Out(g, p[i]);
      } else {
        assert q[i - |p| + 1 + 1] in Out(g, q[i - |p| + 1]);
      }
    }
    assert Path(g, path) && path[0] == a && path[|path| - 1] == c;
  }

  lemma {:induction false} PathStays<T>(g: Graph<T>, nodes: set<T>, path: seq<T>, k: nat)
    requires ClosedUnder(g, nodes) && Path(g, path) && path[0] in nodes && k < |path|
    ensures path[k] in nodes
  {
    if k > 0 {
      PathStays(g, nodes, path, k - 1);
      assert path[k - 1 + 1] in Out(g, path[k - 1]);
    }
  }

  /** A closed set of reachable nodes with the start in it holds exactly the
      reachable nodes. */
  lemma ClosedIsReachable<T(!new)>(g: Graph<T>, start: T, nodes: set<T>)
    requires ClosedUnder(g, nodes) && start in nodes
    requires forall n :: n in nodes ==> Reachable(g, start, n)
    ensures forall n :: n in nodes <==> Reachable(g, start, n)
  {
    forall n | Reachable(g, start, n) ensures n in nodes {
      var path :| Path(g, path) && path[0] == start && path[|path| - 1] == n;
      PathStays(g, nodes, path, |path| - 1);
    }
  }

  // ----- lists without repetition -----

  ghost predicate Distinct<T>(s: seq<T>) {
    forall i, j :: 0 <= i < j < |s| ==> s[i] != s[j]
  }

  ghost function Elements<T>(s: seq<T>): set<T> {
    set x | x in s
  }

  lemma {:induction false} DistinctSize<T>(s: seq<T>, nodes: set<T>)
    requires Distinct(s) && Elements(s) <= nodes
    ensures |s| <= |nodes|
  {
    if s != [] {
      var front, last := s[..|s| - 1], s[|s| - 1];
      forall x | x in Elements(front) ensures x in nodes - {last} {
        var i :| 0 <= i < |front| && front[i] == x;
        assert s[i] in Elements(s);
      }
      assert last in Elements(s);
      DistinctSize(front, nodes - {last});
    }
  }
}
