/**
  Directed graphs given as adjacency maps, and reachability along them.

  A graph maps each key to its ordered list of neighbours. A neighbour that is
  not itself a key has no edges of its own, and a path only runs through keys:
  this is how Build.java's `unreachable` treats a neighbour missing from the
  map, and for the vertex and airport graphs every neighbour is a key anyway.
 */
module Graphs {

  type Graph<T> = map<T, seq<T>>

  /** `p` is a walk of one or more keys, each consecutive pair joined by an edge. */
  ghost predicate IsPath<T>(graph: Graph<T>, p: seq<T>)
  {
    && |p| > 0
    && (forall i :: 0 <= i < |p| ==> p[i] in graph)
    && (forall i :: 0 < i < |p| ==> p[i] in graph[p[i - 1]])
  }

  /** There is a path of zero or more edges from `s` to `t`. */
  ghost predicate Reachable<T(!new)>(graph: Graph<T>, s: T, t: T)
  {
    exists p :: IsPath(graph, p) && p[0] == s && p[|p| - 1] == t
  }

  /** Every edge that leaves a key of `from` ends in `into`, or at a neighbour that is not a key. */
  ghost predicate ClosedOver<T>(graph: Graph<T>, from: set<T>, into: set<T>)
  {
    forall x :: x in from && x in graph ==> forall n :: n in graph[x] && n in graph ==> n in into
  }

  /** No edge leads out of `s` to another key. */
  ghost predicate Closed<T>(graph: Graph<T>, s: set<T>)
  {
    ClosedOver(graph, s, s)
  }

  lemma ReachableRefl<T(!new)>(graph: Graph<T>, s: T)
    requires s in graph
    ensures Reachable(graph, s, s)
  {
    assert IsPath(graph, [s]);
  }

  lemma ReachableEnds<T(!new)>(graph: Graph<T>, s: T, t: T)
    requires Reachable(graph, s, t)
    ensures s in graph && t in graph
  {
    var p :| IsPath(graph, p) && p[0] == s && p[|p| - 1] == t;
    assert p[|p| - 1] in graph;
  }

  /** An edge from `s` to a key `n` followed by a path from `n` is a path from `s`. */
  lemma ReachableStep<T(!new)>(graph: Graph<T>, s: T, n: T, t: T)
    requires s in graph && n in graph[s]
    requires Reachable(graph, n, t)
    ensures Reachable(graph, s, t)
  {
    var p :| IsPath(graph, p) && p[0] == n && p[|p| - 1] == t;
    var q := [s] + p;
    assert forall i :: 0 < i < |q| ==> q[i] == p[i - 1];
    assert IsPath(graph, q);
  }

  /** A path from `s` to `m` followed by an edge from `m` to a key `t` is a path from `s` to `t`. */
  lemma ReachableExtend<T(!new)>(graph: Graph<T>, s: T, m: T, t: T)
    requires Reachable(graph, s, m)
    requires m in graph && t in graph[m] && t in graph
    ensures Reachable(graph, s, t)
  {
    var p :| IsPath(graph, p) && p[0] == s && p[|p| - 1] == m;
    assert IsPath(graph, p + [t]);
  }

  /** Two sets whose edges end in `mid` and `into` respectively, with `mid` inside `into`, have all their edges end in `into`. */
  lemma ClosedGrows<T>(graph: Graph<T>, a: set<T>, b: set<T>, mid: set<T>, into: set<T>)
    requires ClosedOver(graph, a, mid) && ClosedOver(graph, b, into) && mid <= into
    ensures ClosedOver(graph, a + b, into)
  {
  }

  /** A set closed under the edges that holds `s` holds everything reachable from `s`. */
  lemma ClosedContainsReachable<T(!new)>(graph: Graph<T>, c: set<T>, s: T, t: T)
    requires Closed(graph, c) && s in c
    requires Reachable(graph, s, t)
    ensures t in c
  {
    var p :| IsPath(graph, p) && p[0] == s && p[|p| - 1] == t;
    var i := 0;
    while i < |p| - 1
      invariant 0 <= i < |p|
      invariant p[i] in c
    {
      assert p[i + 1] in graph[p[i]] && p[i + 1] in graph;
      i := i + 1;
    }
  }

  /**
    Reachability depends only on the keys and on which neighbours each key
    lists, not on the order or repetition of the neighbour lists.
   */
  lemma ReachableIgnoresOrder<T(!new)>(g1: Graph<T>, g2: Graph<T>, s: T, t: T)
    requires g1.Keys == g2.Keys
    requires forall x, n :: x in g1 ==> (n in g1[x] <==> n in g2[x])
    ensures Reachable(g1, s, t) <==> Reachable(g2, s, t)
  {
    if Reachable(g1, s, t) {
      var p :| IsPath(g1, p) && p[0] == s && p[|p| - 1] == t;
      assert IsPath(g2, p);
    }
    if Reachable(g2, s, t) {
      var p :| IsPath(g2, p) && p[0] == s && p[|p| - 1] == t;
      assert IsPath(g1, p);
    }
  }
}
